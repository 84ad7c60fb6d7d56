/**
 * validateEmail, the syntax check behind changeDebugEmail. The pattern is
 *   ^(ATOMS|QUOTED)@(IPV4|HOST)$
 * where ATOMS are runs of characters outside <>()[]\.,;: whitespace @ and ",
 * separated by single dots; QUOTED is `".+"`; IPV4 is four groups of one to
 * three digits between dots inside brackets; HOST is one or more labels of
 * letters, digits and '-', each followed by a dot, then two or more letters.
 * Each alternative of the pattern is a recursive recogniser below.
 */
module EmailSyntax {

  /** ECMAScript's `\s`: its WhiteSpace and LineTerminator characters. */
  predicate IsJsSpace(c: char)
  {
    c == '\t' || c == '\n' || c == '\U{B}' || c == '\U{C}' || c == '\r' || c == ' '
    || c == '\U{A0}' || c == '\U{1680}' || ('\U{2000}' <= c <= '\U{200A}')
    || c == '\U{2028}' || c == '\U{2029}' || c == '\U{202F}' || c == '\U{205F}'
    || c == '\U{3000}' || c == '\U{FEFF}'
  }

  /** The characters `.` does not match: ECMAScript's LineTerminator. */
  predicate IsLineTerminator(c: char)
  {
    c == '\n' || c == '\r' || c == '\U{2028}' || c == '\U{2029}'
  }

  /** `[^<>()\[\]\\.,;:\s@"]` */
  predicate IsAtomChar(c: char)
  {
    c !in "<>()[]\\.,;:@\"" && !IsJsSpace(c)
  }

  predicate IsDigit(c: char)
  {
    '0' <= c <= '9'
  }

  predicate IsAsciiLetter(c: char)
  {
    'a' <= c <= 'z' || 'A' <= c <= 'Z'
  }

  /** `[a-zA-Z\-0-9]` */
  predicate IsLabelChar(c: char)
  {
    IsAsciiLetter(c) || IsDigit(c) || c == '-'
  }

  // ---- local part -------------------------------------------------------

  /** `[^…]+(\.[^…]+)*`: one or more atoms separated by single dots. */
  predicate DotAtom(s: string)
    decreases |s|
  {
    |s| > 0 && IsAtomChar(s[0]) && AtomRest(s[1..])
  }

  /** What may follow an atom character inside a dot atom. */
  predicate AtomRest(s: string)
    decreases |s|
  {
    |s| == 0
    || (IsAtomChar(s[0]) && AtomRest(s[1..]))
    || (s[0] == '.' && DotAtom(s[1..]))
  }

  /** `".+"`: a quote, at least one character other than a line terminator, a quote. */
  predicate QuotedString(s: string)
  {
    |s| >= 3 && s[0] == '"' && s[|s| - 1] == '"'
    && forall k :: 1 <= k < |s| - 1 ==> !IsLineTerminator(s[k])
  }

  predicate LocalPart(s: string)
  {
    DotAtom(s) || QuotedString(s)
  }

  // ---- domain -----------------------------------------------------------

  /** n groups `[0-9]{1,3}` separated by `\.`, and nothing after the last. */
  predicate DigitGroups(s: string, n: nat)
    decreases n, 1
  {
    n >= 1 && (GroupOf(s, 1, n) || GroupOf(s, 2, n) || GroupOf(s, 3, n))
  }

  /** A first group of exactly len digits, then the other n - 1 groups. */
  predicate GroupOf(s: string, len: nat, n: nat)
    requires n >= 1
    decreases n, 0
  {
    |s| >= len && (forall k :: 0 <= k < len ==> IsDigit(s[k]))
    && if n == 1 then |s| == len
       else |s| > len && s[len] == '.' && DigitGroups(s[len + 1..], n - 1)
  }

  /** `\[[0-9]{1,3}\.[0-9]{1,3}\.[0-9]{1,3}\.[0-9]{1,3}]` */
  predicate IpLiteral(d: string)
  {
    |d| >= 2 && d[0] == '[' && d[|d| - 1] == ']' && DigitGroups(d[1..|d| - 1], 4)
  }

  /** `[a-zA-Z]{2,}` */
  predicate TopLevel(t: string)
  {
    |t| >= 2 && forall k :: 0 <= k < |t| ==> IsAsciiLetter(t[k])
  }

  /** `([a-zA-Z\-0-9]+\.)+[a-zA-Z]{2,}` */
  predicate HostName(d: string)
    decreases |d|
  {
    |d| > 0 && IsLabelChar(d[0]) && LabelRest(d[1..])
  }

  /** The rest of a label, its dot, and then either the top level or more labels. */
  predicate LabelRest(d: string)
    decreases |d|
  {
    |d| > 0
    && ((IsLabelChar(d[0]) && LabelRest(d[1..]))
        || (d[0] == '.' && (TopLevel(d[1..]) || HostName(d[1..]))))
  }

  predicate Domain(d: string)
  {
    IpLiteral(d) || HostName(d)
  }

  // ---- the whole address --------------------------------------------------

  /** The '@' at index k separates a local part from a domain. */
  predicate SplitsAt(s: string, k: nat)
    requires k < |s|
  {
    s[k] == '@' && LocalPart(s[..k]) && Domain(s[k + 1..])
  }

  /** Tries the '@' characters from index k on, as the regex engine backtracks. */
  predicate SplitFrom(s: string, k: nat)
    ensures SplitFrom(s, k) <==> exists j :: k <= j < |s| && SplitsAt(s, j)
    decreases |s| - k
  {
    k < |s| && (SplitsAt(s, k) || SplitFrom(s, k + 1))
  }

  /** validateEmail(email): the anchored pattern matches the whole text. */
  predicate ValidateEmail(email: string)
  {
    SplitFrom(email, 0)
  }

  // ---- properties ---------------------------------------------------------

  /** An independent description of dot atoms, character by character. */
  ghost predicate DotSeparatedAtoms(s: string)
  {
    && |s| > 0 && s[0] != '.' && s[|s| - 1] != '.'
    && (forall k :: 0 <= k < |s| ==> IsAtomChar(s[k]) || s[k] == '.')
    && (forall k :: 0 <= k < |s| - 1 && s[k] == '.' ==> s[k + 1] != '.')
  }

  /** What may follow an atom character, character by character. */
  ghost predicate RestShape(s: string)
  {
    && (|s| > 0 ==> s[|s| - 1] != '.')
    && (forall k :: 0 <= k < |s| ==> IsAtomChar(s[k]) || s[k] == '.')
    && (forall k :: 0 <= k < |s| - 1 && s[k] == '.' ==> s[k + 1] != '.')
  }

  lemma {:induction false} AtomRestShape(s: string)
    ensures AtomRest(s) <==> RestShape(s)
    decreases |s|
  {
    if |s| > 0 {
      var u := s[1..];
      AtomRestShape(u);
      if |u| > 0 {
        AtomRestShape(u[1..]);
        assert forall k :: 0 <= k < |u| - 1 ==> u[1..][k] == u[k + 1];
      }
      assert forall k :: 0 <= k < |u| ==> u[k] == s[k + 1];
      if RestShape(s) {
        if IsAtomChar(s[0]) {
          assert RestShape(u);
        } else {
          assert s[0] == '.';
          assert |u| > 0 && IsAtomChar(u[0]) && RestShape(u[1..]);
        }
      }
    }
  }

  /** The recogniser of dot atoms accepts exactly the dot-separated atoms. */
  lemma DotAtomIff(s: string)
    ensures DotAtom(s) <==> DotSeparatedAtoms(s)
  {
    if |s| > 0 {
      AtomRestShape(s[1..]);
      assert forall k :: 0 <= k < |s| - 1 ==> s[1..][k] == s[k + 1];
    }
  }

  /** The '@' of a valid address is never part of the domain. */
  lemma {:induction false} HostNameHasNoAtHasDot(d: string)
    ensures HostName(d) ==> '@' !in d && '.' in d
    decreases |d|, 1
  {
    if HostName(d) {
      LabelRestHasNoAtHasDot(d[1..]);
      assert d == [d[0]] + d[1..];
    }
  }

  lemma {:induction false} LabelRestHasNoAtHasDot(d: string)
    ensures LabelRest(d) ==> '@' !in d && '.' in d
    decreases |d|, 0
  {
    if LabelRest(d) {
      assert d == [d[0]] + d[1..];
      if IsLabelChar(d[0]) && LabelRest(d[1..]) {
        LabelRestHasNoAtHasDot(d[1..]);
      } else if HostName(d[1..]) {
        HostNameHasNoAtHasDot(d[1..]);
      }
    }
  }

  lemma {:induction false} GroupOfHasNoAt(s: string, len: nat, n: nat)
    requires n >= 1
    ensures GroupOf(s, len, n) ==> '@' !in s
    decreases n, 0
  {
    if GroupOf(s, len, n) {
      if n > 1 {
        DigitGroupsHaveNoAt(s[len + 1..], n - 1);
        assert s == s[..len] + [s[len]] + s[len + 1..];
      }
      assert forall k :: 0 <= k < len ==> s[k] != '@';
    }
  }

  lemma {:induction false} DigitGroupsHaveNoAt(s: string, n: nat)
    ensures DigitGroups(s, n) ==> '@' !in s
    decreases n, 1
  {
    if n >= 1 {
      GroupOfHasNoAt(s, 1, n);
      GroupOfHasNoAt(s, 2, n);
      GroupOfHasNoAt(s, 3, n);
    }
  }

  /** A domain holds a dot and no '@'. */
  lemma DomainShape(d: string)
    requires Domain(d)
    ensures '.' in d && '@' !in d
  {
    HostNameHasNoAtHasDot(d);
    if IpLiteral(d) {
      var q := d[1..|d| - 1];
      DigitGroupsHaveNoAt(q, 4);
      assert d == [d[0]] + q + [d[|d| - 1]];
      assert GroupOf(q, 1, 4) || GroupOf(q, 2, 4) || GroupOf(q, 3, 4);
      if GroupOf(q, 1, 4) { assert d[2] == '.'; }
      else if GroupOf(q, 2, 4) { assert d[3] == '.'; }
      else { assert d[4] == '.'; }
    }
  }

  /**
   * The recogniser agrees with the pattern, and in any match the '@' that
   * separates the parts is the last '@' of the text.
   */
  lemma ValidateEmailMatches(s: string)
    ensures ValidateEmail(s) <==> exists k :: 0 <= k < |s| && SplitsAt(s, k)
    ensures forall k :: 0 <= k < |s| && SplitsAt(s, k) ==>
              forall j :: k < j < |s| ==> s[j] != '@'
  {
    forall k | 0 <= k < |s| && SplitsAt(s, k)
      ensures forall j :: k < j < |s| ==> s[j] != '@'
    {
      DomainShape(s[k + 1..]);
      forall j | k < j < |s| ensures s[j] != '@' {
        assert s[j] == s[k + 1..][j - k - 1];
      }
    }
  }

  lemma AcceptsDottedLocalPart()
    ensures ValidateEmail("a.b@example.com")
  {
    var s := "a.b@example.com";
    assert DotAtom("b");
    assert DotAtom("a.b") by { assert "a.b"[1..] == ".b"; assert ".b"[1..] == "b"; }
    ExampleHostName();
    assert s[..3] == "a.b" && s[4..] == "example.com";
    assert SplitsAt(s, 3);
  }

  /** "example.com" is a host name: two labels, the last one alphabetic. */
  lemma ExampleHostName()
    ensures HostName("example.com")
  {
    var d := "example.com";
    assert TopLevel("com");
    assert LabelRest(".com") by { assert ".com"[1..] == "com"; }
    assert LabelRest("e.com") by { assert "e.com"[1..] == ".com"; }
    assert LabelRest("le.com") by { assert "le.com"[1..] == "e.com"; }
    assert LabelRest("ple.com") by { assert "ple.com"[1..] == "le.com"; }
    assert LabelRest("mple.com") by { assert "mple.com"[1..] == "ple.com"; }
    assert LabelRest("ample.com") by { assert "ample.com"[1..] == "mple.com"; }
    assert LabelRest("xample.com") by { assert "xample.com"[1..] == "ample.com"; }
    assert d[1..] == "xample.com";
  }

  lemma AcceptsAddressLiteral()
    ensures ValidateEmail("x@[10.0.0.1]")
  {
    var s := "x@[10.0.0.1]";
    ExampleIpLiteral();
    assert DotAtom("x") && s[..1] == "x" && s[2..] == "[10.0.0.1]";
    assert SplitsAt(s, 1);
  }

  /** "[10.0.0.1]" is an address literal: four digit groups in brackets. */
  lemma ExampleIpLiteral()
    ensures IpLiteral("[10.0.0.1]")
  {
    var q := "10.0.0.1";
    assert GroupOf("1", 1, 1);
    assert DigitGroups("1", 1);
    assert GroupOf("0.1", 1, 2) by { assert "0.1"[2..] == "1"; }
    assert GroupOf("0.0.1", 1, 3) by { assert "0.0.1"[2..] == "0.1"; }
    assert GroupOf(q, 2, 4) by { assert q[3..] == "0.0.1"; }
    assert "[10.0.0.1]"[1..9] == q;
  }

  /** "a@b": the only '@' is followed by a domain without a dot. */
  lemma RejectsDotlessDomain()
    ensures !ValidateEmail("a@b")
  {
  }

  /** "not-an-email": there is no '@' at all. */
  lemma RejectsMissingAt()
    ensures !ValidateEmail("not-an-email")
  {
    var s := "not-an-email";
    ValidateEmailMatches(s);
    assert forall k :: 0 <= k < |s| ==> s[k] != '@';
  }
}
