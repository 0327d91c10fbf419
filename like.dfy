/** Escaping the LIKE wildcards of a literal before it is put into a
    pattern (SQuery.EscapeLikeSpecialChrs), and what a pattern means to a
    LIKE ... ESCAPE matcher. */
module LikeEscape {

  /** The two characters the source escapes: '%' and '_'. */
  predicate IsLikeSpecial(c: char)
  {
    c == '%' || c == '_'
  }

  /** The Targets array of the source, searched in this order. */
  const Targets: seq<char> := ['%', '_']

  /** The source text with `escapeChar` put in front of each '%' and '_';
      every character is copied, in order. */
  function Escaped(source: string, escapeChar: char): string
  {
    if source == [] then []
    else (if IsLikeSpecial(source[0]) then [escapeChar, source[0]] else [source[0]])
         + Escaped(source[1..], escapeChar)
  }

  /** Escaping works character by character. */
  lemma {:induction false} EscapedAppend(a: string, b: string, e: char)
    ensures Escaped(a + b, e) == Escaped(a, e) + Escaped(b, e)
    decreases |a|
  {
    if a == [] {
      assert a + b == b;
    } else {
      assert (a + b)[0] == a[0] && (a + b)[1..] == a[1..] + b;
      EscapedAppend(a[1..], b, e);
    }
  }

  /** EscapeLikeSpecialChrs: for each character, look it up among the
      Targets '%' and '_', appending the escape character on a hit, then
      append the character itself. */
  method EscapeLikeSpecialChrs(source: string, escapeChar: char) returns (result: string)
    ensures result == Escaped(source, escapeChar)
  {
    result := [];
    var i := 0;
    while i < |source|
      invariant 0 <= i <= |source|
      invariant result == Escaped(source[..i], escapeChar)
    {
      var c := source[i];
      var j := 0;
      var hit := false;
      while j < |Targets|
        invariant 0 <= j <= |Targets|
        invariant !hit
        invariant forall k :: 0 <= k < j ==> c != Targets[k]
        invariant result == Escaped(source[..i], escapeChar)
      {
        if c == Targets[j] {
          result := result + [escapeChar];
          hit := true;
          break;
        }
        j := j + 1;
      }
      assert hit ==> IsLikeSpecial(c);
      assert !hit ==> c != Targets[0] && c != Targets[1];
      assert hit <==> IsLikeSpecial(c);
      assert result == Escaped(source[..i], escapeChar) + (if hit then [escapeChar] else []);
      result := result + [c];
      assert source[..i + 1] == source[..i] + [c];
      EscapedAppend(source[..i], [c], escapeChar);
      assert Escaped([c], escapeChar) == (if IsLikeSpecial(c) then [escapeChar, c] else [c]) by {
        assert [c][1..] == [];
      }
      i := i + 1;
    }
    assert source[..i] == source;
  }

  /** How many wildcard characters `s` holds. */
  function SpecialCount(s: string): nat
  {
    if s == [] then 0 else (if IsLikeSpecial(s[0]) then 1 else 0) + SpecialCount(s[1..])
  }

  /** One escape character per wildcard is added, nothing else. */
  lemma {:induction false} EscapedLength(s: string, e: char)
    ensures |Escaped(s, e)| == |s| + SpecialCount(s)
  {
    if s != [] {
      EscapedLength(s[1..], e);
    }
  }

  /** What a LIKE matcher sees in a pattern read with escape character `e`:
      `e` followed by any character stands for that character literally
      (an escape character at the very end matches nothing), '%' for any
      string, '_' for any single character, anything else for itself. */
  datatype PatternItem = Literal(c: char) | AnyString | AnyChar | Dangling

  function ReadPattern(p: string, e: char): seq<PatternItem>
  {
    if p == [] then []
    else if p[0] == e then
      if |p| == 1 then [Dangling] else [Literal(p[1])] + ReadPattern(p[2..], e)
    else if p[0] == '%' then [AnyString] + ReadPattern(p[1..], e)
    else if p[0] == '_' then [AnyChar] + ReadPattern(p[1..], e)
    else [Literal(p[0])] + ReadPattern(p[1..], e)
  }

  /** The pattern that matches exactly the text `s`. */
  function Literals(s: string): (r: seq<PatternItem>)
    ensures |r| == |s|
    ensures forall i :: 0 <= i < |s| ==> r[i] == Literal(s[i])
  {
    seq(|s|, i requires 0 <= i < |s| => Literal(s[i]))
  }

  /** When the literal does not itself hold the escape character, the
      escaped text, used as a LIKE pattern with that escape character,
      matches exactly the literal. */
  lemma {:induction false} EscapedReadsLiterally(s: string, e: char)
    requires e !in s
    ensures ReadPattern(Escaped(s, e), e) == Literals(s)
  {
    if s != [] {
      assert e !in s[1..] by {
        assert forall c :: c in s[1..] ==> c in s;
      }
      EscapedReadsLiterally(s[1..], e);
      var p := Escaped(s, e);
      if IsLikeSpecial(s[0]) {
        assert p[0] == e && p[1] == s[0] && p[2..] == Escaped(s[1..], e);
      } else {
        assert p[0] == s[0] && p[1..] == Escaped(s[1..], e);
      }
      assert Literals(s) == [Literal(s[0])] + Literals(s[1..]);
    }
  }

  /** The escape character is not itself escaped: a literal holding a
      backslash before a percent sign, escaped with '\\', becomes a
      pattern whose percent sign is a wildcard again. */
  lemma EscapeCharLeftBare(s: string, e: char)
    requires s == "\\%" && e == '\\'
    ensures Escaped(s, e) == "\\\\%"
    ensures ReadPattern(Escaped(s, e), e) == [Literal('\\'), AnyString]
    ensures ReadPattern(Escaped(s, e), e) != Literals(s)
  {
    assert s[1..] == "%" && "%"[1..] == [];
    assert Escaped("%", e) == [e, '%'];
    var p := Escaped(s, e);
    assert p == ['\\'] + ['\\', '%'];
    assert p[2..] == "%" && "%"[1..] == [];
    assert ReadPattern(p, e) == [Literal('\\')] + ReadPattern("%", e);
    assert Literals(s)[1] == Literal('%');
  }

  /** The characters a LIKE ... ESCAPE pattern gives a meaning to. */
  predicate NeedsEscape(c: char, e: char)
  {
    IsLikeSpecial(c) || c == e
  }

  /** The escaping the pattern reading calls for: the escape character goes
      in front of '%', '_' and of the escape character itself. */
  function EscapedWithEscapeChar(source: string, escapeChar: char): string
  {
    if source == [] then []
    else (if NeedsEscape(source[0], escapeChar) then [escapeChar, source[0]] else [source[0]])
         + EscapedWithEscapeChar(source[1..], escapeChar)
  }

  /** With the escape character escaped too, every literal reads back as
      itself. */
  lemma {:induction false} EscapedWithEscapeCharReadsLiterally(s: string, e: char)
    ensures ReadPattern(EscapedWithEscapeChar(s, e), e) == Literals(s)
  {
    if s != [] {
      EscapedWithEscapeCharReadsLiterally(s[1..], e);
      var p := EscapedWithEscapeChar(s, e);
      if NeedsEscape(s[0], e) {
        assert p[0] == e && p[1] == s[0] && p[2..] == EscapedWithEscapeChar(s[1..], e);
      } else {
        assert p[0] == s[0] && p[1..] == EscapedWithEscapeChar(s[1..], e);
      }
      assert Literals(s) == [Literal(s[0])] + Literals(s[1..]);
    }
  }

  /** The two escapings differ only on literals holding the escape
      character. */
  lemma {:induction false} EscapingsAgree(s: string, e: char)
    requires e !in s
    ensures EscapedWithEscapeChar(s, e) == Escaped(s, e)
  {
    if s != [] {
      assert e !in s[1..] by {
        assert forall c :: c in s[1..] ==> c in s;
      }
      EscapingsAgree(s[1..], e);
    }
  }
}
