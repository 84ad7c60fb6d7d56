/**
 * escapeHtml: one left-to-right pass that replaces each of the five HTML
 * special characters by its entity and copies every other character.
 */
module HtmlEscape {
  /** The characters the replacement pattern `[&<>"']` matches. */
  predicate IsSpecial(c: char)
  {
    c == '&' || c == '<' || c == '>' || c == '"' || c == '\''
  }

  /** The replacement dictionary; a character it does not list stands for itself. */
  function Entity(c: char): (e: string)
    ensures |e| >= 1
    ensures '<' !in e && '>' !in e && '"' !in e && '\'' !in e
    ensures IsSpecial(c) ==> e[0] == '&' && '&' !in e[1..]
    ensures !IsSpecial(c) ==> e == [c]
  {
    match c
    case '&' => "&amp;"
    case '<' => "&lt;"
    case '>' => "&gt;"
    case '"' => "&quot;"
    case '\'' => "&#039;"
    case _ => [c]
  }

  /** escapeHtml(text). */
  function EscapeHtml(s: string): (r: string)
    ensures '<' !in r && '>' !in r && '"' !in r && '\'' !in r
    ensures |r| >= |s|
  {
    if s == [] then [] else Entity(s[0]) + EscapeHtml(s[1..])
  }

  predicate HasPrefix(p: string, t: string)
  {
    |p| <= |t| && t[..|p|] == p
  }

  /** True when t begins with one of the five entities escapeHtml writes. */
  predicate StartsWithEntity(t: string)
  {
    HasPrefix("&amp;", t) || HasPrefix("&lt;", t) || HasPrefix("&gt;", t)
    || HasPrefix("&quot;", t) || HasPrefix("&#039;", t)
  }

  /** The character at the front of t, entity or not, and how many characters it takes. */
  function DecodeFirst(t: string): (d: (char, nat))
    requires |t| > 0
    ensures 1 <= d.1 <= |t|
  {
    if t[0] != '&' then (t[0], 1)
    else if HasPrefix("&amp;", t) then ('&', 5)
    else if HasPrefix("&lt;", t) then ('<', 4)
    else if HasPrefix("&gt;", t) then ('>', 4)
    else if HasPrefix("&quot;", t) then ('"', 6)
    else if HasPrefix("&#039;", t) then ('\'', 6)
    else ('&', 1)
  }

  /** Decodes the five entities, left to right; everything else is copied. */
  function UnescapeHtml(t: string): string
    decreases |t|
  {
    if |t| == 0 then ""
    else var d := DecodeFirst(t); [d.0] + UnescapeHtml(t[d.1..])
  }

  /** The front of an escaped character decodes to that character. */
  lemma DecodeEntity(c: char, rest: string)
    ensures DecodeFirst(Entity(c) + rest) == (c, |Entity(c)|)
  {
    var t := Entity(c) + rest;
    match c
    case '&' => assert t[..5] == "&amp;";
    case '<' =>
      assert t[..4] == "&lt;";
      DiffersAt("&amp;", t, 1);
    case '>' =>
      assert t[..4] == "&gt;";
      DiffersAt("&amp;", t, 1);
      DiffersAt("&lt;", t, 1);
    case '"' =>
      assert t[..6] == "&quot;";
      DiffersAt("&amp;", t, 1);
      DiffersAt("&lt;", t, 1);
      DiffersAt("&gt;", t, 1);
    case '\'' =>
      assert t[..6] == "&#039;";
      DiffersAt("&amp;", t, 1);
      DiffersAt("&lt;", t, 1);
      DiffersAt("&gt;", t, 1);
      DiffersAt("&quot;", t, 1);
    case _ => assert t[0] == c;
  }

  /** A text that differs from p at some index of p does not start with p. */
  lemma DiffersAt(p: string, t: string, i: nat)
    requires i < |p| && i < |t| && p[i] != t[i]
    ensures !HasPrefix(p, t)
  {
    assert |p| <= |t| ==> t[..|p|][i] == t[i];
  }

  /** Decoding reads one character's entity off the front of the output. */
  lemma UnescapeEntity(c: char, rest: string)
    ensures UnescapeHtml(Entity(c) + rest) == [c] + UnescapeHtml(rest)
  {
    var t := Entity(c) + rest;
    DecodeEntity(c, rest);
    assert t[|Entity(c)|..] == rest;
  }

  /** Decoding the output gives back the input: no character is escaped twice. */
  lemma {:induction false} UnescapeEscape(s: string)
    ensures UnescapeHtml(EscapeHtml(s)) == s
  {
    if s != [] {
      UnescapeEntity(s[0], EscapeHtml(s[1..]));
      UnescapeEscape(s[1..]);
    }
  }

  /** Different texts always escape to different outputs. */
  lemma EscapeHtmlInjective(a: string, b: string)
    requires EscapeHtml(a) == EscapeHtml(b)
    ensures a == b
  {
    UnescapeEscape(a);
    UnescapeEscape(b);
  }

  /** Every '&' of the output is the start of one of the five entities. */
  lemma {:induction false} AmpersandStartsEntity(s: string, k: nat)
    requires k < |EscapeHtml(s)| && EscapeHtml(s)[k] == '&'
    ensures StartsWithEntity(EscapeHtml(s)[k..])
  {
    var e := Entity(s[0]);
    var rest := EscapeHtml(s[1..]);
    var r := EscapeHtml(s);
    assert r == e + rest;
    if k < |e| {
      assert r[k] == e[k];
      assert k == 0;
      assert r[..|e|] == e;
    } else {
      assert r[k..] == rest[k - |e|..];
      AmpersandStartsEntity(s[1..], k - |e|);
    }
  }

  /** Text with none of the five characters passes through unchanged. */
  lemma {:induction false} EscapeHtmlPlainText(s: string)
    requires forall k :: 0 <= k < |s| ==> !IsSpecial(s[k])
    ensures EscapeHtml(s) == s
  {
    if s != [] {
      EscapeHtmlPlainText(s[1..]);
    }
  }

  /** Weighted count of the five characters: what escaping adds to the length. */
  function Growth(m: multiset<char>): int
  {
    4 * m['&'] + 3 * m['<'] + 3 * m['>'] + 5 * m['"'] + 5 * m['\'']
  }

  lemma EntityLength(c: char)
    ensures |Entity(c)| == 1 + Growth(multiset{c})
  {
  }

  lemma GrowthAdds(a: multiset<char>, b: multiset<char>)
    ensures Growth(a + b) == Growth(a) + Growth(b)
  {
  }

  /** Each '&' adds four characters, each '<' or '>' three, each quote five. */
  lemma {:induction false} EscapeHtmlLength(s: string)
    ensures |EscapeHtml(s)| == |s| + 4 * multiset(s)['&'] + 3 * multiset(s)['<']
              + 3 * multiset(s)['>'] + 5 * multiset(s)['"'] + 5 * multiset(s)['\'']
  {
    if s != [] {
      assert s == [s[0]] + s[1..];
      assert multiset(s) == multiset{s[0]} + multiset(s[1..]);
      EntityLength(s[0]);
      GrowthAdds(multiset{s[0]}, multiset(s[1..]));
      EscapeHtmlLength(s[1..]);
      assert |EscapeHtml(s)| == |s| + Growth(multiset(s));
    }
  }

  /** Escaping entities already in the input: the '&' of "&lt;" is escaped once, by itself. */
  lemma EscapeHtmlExample()
    ensures EscapeHtml("&lt;") == "&amp;lt;"
  {
    var s := "&lt;";
    assert s[1..] == "lt;";
    assert s[1..][1..] == "t;";
    assert s[1..][1..][1..] == ";";
  }
}
