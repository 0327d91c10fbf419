/** The placeholder scanner: the `@name` tokens of a SQL template, in order
    of appearance (SQuery.ExtractParamers). */
module Placeholders {
  import opened Text

  /** The scanner's character test: one range test 'A'..'z', which also
      admits [ \ ] ^ and the backquote lying between 'Z' and 'a', then '_'
      and the digits. */
  predicate IsNameChar(c: char)
  {
    ('A' <= c <= 'z') || c == '_' || ('0' <= c <= '9')
  }

  /** A well-formed extracted name: non-empty, name characters only. */
  predicate IsName(n: string)
  {
    |n| > 0 && forall i :: 0 <= i < |n| ==> IsNameChar(n[i])
  }

  /** A character that ends a pending name without starting a new one. */
  predicate Ends(c: char)
  {
    !IsNameChar(c) && c != '@'
  }

  /** The scanner's state: the `inTag` flag, the name buffer and the names
      emitted so far. */
  datatype ScanState = ScanState(inTag: bool, buffer: string, names: seq<string>)

  /** Outside any tag, nothing pending, `names` emitted. */
  function Idle(names: seq<string>): ScanState
  {
    ScanState(false, "", names)
  }

  const Start: ScanState := Idle([])

  /** One iteration of the scan over character `c`. */
  function Step(st: ScanState, c: char): ScanState
  {
    if c == '@' then ScanState(true, "", st.names)
    else if !st.inTag then st
    else if IsNameChar(c) then st.(buffer := st.buffer + [c])
    else ScanState(false, "", if st.buffer != "" then st.names + [st.buffer] else st.names)
  }

  /** The scan of `s` started in state `st`. */
  function Scan(st: ScanState, s: string): ScanState
    decreases |s|
  {
    if s == [] then st else Scan(Step(st, s[0]), s[1..])
  }

  /** The names ExtractParamers returns for `s`. */
  function Extract(s: string): seq<string>
  {
    Scan(Start, s).names
  }

  /** ExtractParamers: one pass over the characters with an `inTag` flag and
      a name buffer; the name still open at the end of input is dropped. */
  method ExtractParameters(queryStr: string) returns (result: seq<string>)
    ensures result == Extract(queryStr)
  {
    result := [];
    var inTag := false;
    var nameBuffer := "";
    var i := 0;
    while i < |queryStr|
      invariant 0 <= i <= |queryStr|
      invariant Scan(ScanState(inTag, nameBuffer, result), queryStr[i..]) == Scan(Start, queryStr)
    {
      var s := queryStr[i];
      assert queryStr[i..][0] == s && queryStr[i..][1..] == queryStr[i + 1..];
      i := i + 1;
      if s == '@' {
        inTag := true;
        nameBuffer := "";
        continue;
      }
      if inTag {
        if IsNameChar(s) {
          nameBuffer := nameBuffer + [s];
        } else {
          if nameBuffer != "" {
            result := result + [nameBuffer];
            nameBuffer := "";
          }
          inTag := false;
        }
      }
    }
  }

  // ---------------------------------------------------------------------
  // An independent, token-level reading of the same behaviour.

  /** The length of the longest prefix of `s` made of name characters. */
  function NameRun(s: string): (k: nat)
    ensures k <= |s|
    ensures forall i :: 0 <= i < k ==> IsNameChar(s[i])
    ensures k < |s| ==> !IsNameChar(s[k])
  {
    if s != [] && IsNameChar(s[0]) then 1 + NameRun(s[1..]) else 0
  }

  /** The names found in `s` read outside any tag: text up to the next '@'
      is skipped. */
  function Outside(s: string): seq<string>
    decreases |s|, 1
  {
    if s == [] then []
    else if s[0] == '@' then Inside("", s[1..])
    else Outside(s[1..])
  }

  /** The names found in `s` read just after an '@' whose name so far is
      `pending`: the name runs to the first non-name character; a name the
      input ends in is dropped; an '@' starts a fresh name and discards the
      pending one; any other character ends it and emits it when non-empty. */
  function Inside(pending: string, s: string): seq<string>
    decreases |s|, 0
  {
    var k := NameRun(s);
    if k == |s| then []
    else if s[k] == '@' then Inside("", s[k + 1..])
    else (if pending + s[..k] == "" then [] else [pending + s[..k]]) + Outside(s[k + 1..])
  }

  lemma {:induction false} ScanOutside(b: string, acc: seq<string>, s: string)
    ensures Scan(ScanState(false, b, acc), s).names == acc + Outside(s)
    decreases |s|, 1
  {
    if s == [] {
    } else if s[0] == '@' {
      ScanInside("", acc, s[1..]);
    } else {
      ScanOutside(b, acc, s[1..]);
    }
  }

  lemma {:induction false} ScanInside(b: string, acc: seq<string>, s: string)
    ensures Scan(ScanState(true, b, acc), s).names == acc + Inside(b, s)
    decreases |s|, 0
  {
    if s == [] {
    } else if s[0] == '@' {
      ScanInside("", acc, s[1..]);
    } else if IsNameChar(s[0]) {
      var t := s[1..];
      assert Scan(ScanState(true, b, acc), s) == Scan(ScanState(true, b + [s[0]], acc), t);
      ScanInside(b + [s[0]], acc, t);
      InsideShift(b, s);
    } else {
      var out := if b != "" then acc + [b] else acc;
      assert Scan(ScanState(true, b, acc), s) == Scan(Idle(out), s[1..]);
      ScanOutside("", out, s[1..]);
      assert NameRun(s) == 0 && b + s[..0] == b;
      assert acc + Inside(b, s) == out + Outside(s[1..]);
    }
  }

  /** A leading name character moves from the input to the pending name. */
  lemma InsideShift(b: string, s: string)
    requires |s| > 0 && IsNameChar(s[0])
    ensures Inside(b, s) == Inside(b + [s[0]], s[1..])
  {
    var t := s[1..];
    var k, k' := NameRun(s), NameRun(t);
    assert k == 1 + k';
    if k < |s| {
      assert s[k] == t[k'];
      assert s[k + 1..] == t[k' + 1..];
      assert b + s[..k] == (b + [s[0]]) + t[..k'];
    }
  }

  /** The scanner and the token-level reading agree on every input. */
  lemma ExtractIsOutside(s: string)
    ensures Extract(s) == Outside(s)
  {
    ScanOutside("", [], s);
  }

  lemma {:induction false} InsideNames(pending: string, s: string)
    requires forall i :: 0 <= i < |pending| ==> IsNameChar(pending[i])
    ensures forall j :: 0 <= j < |Inside(pending, s)| ==> IsName(Inside(pending, s)[j])
    decreases |s|, 0
  {
    var k := NameRun(s);
    if k == |s| {
    } else if s[k] == '@' {
      InsideNames("", s[k + 1..]);
    } else {
      OutsideNames(s[k + 1..]);
      var n := pending + s[..k];
      assert forall i :: 0 <= i < |n| ==> IsNameChar(n[i]) by {
        forall i | 0 <= i < |n| ensures IsNameChar(n[i]) {
          if i >= |pending| { assert n[i] == s[i - |pending|]; }
        }
      }
    }
  }

  lemma {:induction false} OutsideNames(s: string)
    ensures forall j :: 0 <= j < |Outside(s)| ==> IsName(Outside(s)[j])
    decreases |s|, 1
  {
    if s == [] {
    } else if s[0] == '@' {
      InsideNames("", s[1..]);
    } else {
      OutsideNames(s[1..]);
    }
  }

  /** Every extracted name is non-empty and made of name characters only. */
  lemma ExtractNamesWellFormed(s: string)
    ensures forall j :: 0 <= j < |Extract(s)| ==> IsName(Extract(s)[j])
  {
    ExtractIsOutside(s);
    OutsideNames(s);
  }

  /** A template without '@' has no placeholders. */
  lemma NoTagNoNames(s: string)
    requires '@' !in s
    ensures Extract(s) == []
  {
    ScanPlain(Start, s);
  }

  /** The quirks kept from the source: '@' inside a tag discards the partial
      name, and a name open at the end of input is dropped. */
  lemma TagQuirks()
    ensures Extract("@a@b ") == ["b"]
    ensures Extract("x=@a") == []
  {
    var s := "@a@b ";
    assert s[1..] == "a@b " && "a@b "[1..] == "@b " && "@b "[1..] == "b " && "b "[1..] == " ";
    assert "" + ["a@b "[0]] == "a" && "" + ["b "[0]] == "b";
    assert Scan(Start, s) == Scan(ScanState(true, "", []), "a@b ");
    assert Scan(ScanState(true, "", []), "a@b ") == Scan(ScanState(true, "a", []), "@b ");
    assert Scan(ScanState(true, "a", []), "@b ") == Scan(ScanState(true, "", []), "b ");
    assert Scan(ScanState(true, "", []), "b ") == Scan(ScanState(true, "b", []), " ");
    assert " "[1..] == "";
    assert Scan(ScanState(true, "b", []), " ") == Idle(["b"]);
    var u := "x=@a";
    assert u == "x=" + "@a";
    ScanAppend(Start, "x=", "@a");
    ScanPlain(Start, "x=");
    assert "@a"[1..] == "a" && "a"[1..] == "";
    assert Scan(Start, "@a") == Scan(ScanState(true, "", []), "a");
  }

  /** The range test takes '[' and ']' as name characters, so a name runs on
      through them. */
  lemma RangeQuirk()
    ensures Extract("@a[1] ") == ["a[1]"]
  {
    TagThenTerminator([], "", "a[1]", " ");
    assert "" + "@" + "a[1]" + " " == "@a[1] ";
  }

  /** Two placeholders of a WHERE clause come back in order. */
  lemma TwoPlaceholders(s: string)
    requires s == "a=@x AND b=@y;"
    ensures Extract(s) == ["x", "y"]
  {
    var a := "a=" + "@" + "x" + " ";
    var b := "AND b=" + "@" + "y" + ";";
    assert s == a + b;
    ScanAppend(Start, a, b);
    TagThenTerminator([], "a=", "x", " ");
    TagThenTerminator(["x"], "AND b=", "y", ";");
    assert [] + ["x"] == ["x"] && ["x"] + ["y"] == ["x", "y"];
  }

  // ---------------------------------------------------------------------
  // Scanning text assembled from pieces.

  /** Scanning a concatenation is scanning its halves in turn. */
  lemma {:induction false} ScanAppend(st: ScanState, a: string, b: string)
    ensures Scan(st, a + b) == Scan(Scan(st, a), b)
    decreases |a|
  {
    if a == [] {
      assert a + b == b;
    } else {
      assert (a + b)[0] == a[0] && (a + b)[1..] == a[1..] + b;
      assert Scan(st, a + b) == Scan(Step(st, a[0]), a[1..] + b);
      ScanAppend(Step(st, a[0]), a[1..], b);
    }
  }

  /** Outside a tag, text without '@' changes nothing. */
  lemma {:induction false} ScanPlain(st: ScanState, s: string)
    requires !st.inTag && '@' !in s
    ensures Scan(st, s) == st
    decreases |s|
  {
    if s != [] {
      assert s[0] in s;
      assert forall c :: c in s[1..] ==> c in s;
      ScanPlain(st, s[1..]);
    }
  }

  /** Inside a tag, name characters only extend the buffer. */
  lemma {:induction false} ScanNameChars(b: string, acc: seq<string>, w: string)
    requires forall i :: 0 <= i < |w| ==> IsNameChar(w[i])
    ensures Scan(ScanState(true, b, acc), w) == ScanState(true, b + w, acc)
    decreases |w|
  {
    if w != [] {
      assert w[0] != '@';
      ScanNameChars(b + [w[0]], acc, w[1..]);
      assert b + [w[0]] + w[1..] == b + w;
    }
  }

  /** The names already emitted do not influence the rest of the scan. */
  lemma {:induction false} ScanShift(inTag: bool, b: string, acc: seq<string>, s: string)
    ensures Scan(ScanState(inTag, b, acc), s)
         == var r := Scan(ScanState(inTag, b, []), s); ScanState(r.inTag, r.buffer, acc + r.names)
    decreases |s|
  {
    if s != [] {
      var st, st0 := ScanState(inTag, b, acc), ScanState(inTag, b, []);
      var n, n0 := Step(st, s[0]), Step(st0, s[0]);
      assert n.inTag == n0.inTag && n.buffer == n0.buffer && n.names == acc + n0.names;
      ScanShift(n.inTag, n.buffer, n.names, s[1..]);
      ScanShift(n0.inTag, n0.buffer, n0.names, s[1..]);
      ScanShift(n.inTag, n.buffer, acc, s[1..]);
      var r := Scan(ScanState(n.inTag, n.buffer, []), s[1..]);
      assert acc + (n0.names + r.names) == (acc + n0.names) + r.names;
    }
  }

  /** Outside a tag the buffer is empty, whatever has been scanned. */
  lemma {:induction false} ScanKeepsIdleBuffer(st: ScanState, s: string)
    requires !st.inTag ==> st.buffer == ""
    ensures var r := Scan(st, s); !r.inTag ==> r.buffer == ""
    decreases |s|
  {
    if s != [] {
      ScanKeepsIdleBuffer(Step(st, s[0]), s[1..]);
    }
  }

  /** The names of a fragment once something that cannot continue a name
      follows it: the extracted names plus the name still open at its end. */
  function Closed(w: string): seq<string>
  {
    var r := Scan(Start, w);
    if r.inTag && r.buffer != "" then r.names + [r.buffer] else r.names
  }

  /** A fragment followed by a terminator (a text without '@' whose first
      character ends names) contributes exactly its closed names. */
  lemma ScanTerminated(acc: seq<string>, w: string, t: string)
    requires |t| > 0 && Ends(t[0]) && '@' !in t
    ensures Scan(Idle(acc), w + t) == Idle(acc + Closed(w))
  {
    ScanAppend(Idle(acc), w, t);
    ScanShift(false, "", acc, w);
    ScanKeepsIdleBuffer(Start, w);
    var r := Scan(Idle(acc), w);
    assert Scan(r, t) == Scan(Step(r, t[0]), t[1..]);
    assert Step(r, t[0]) == Idle(acc + Closed(w));
    assert '@' !in t[1..] by {
      assert forall c :: c in t[1..] ==> c in t;
    }
    ScanPlain(Idle(acc + Closed(w)), t[1..]);
  }

  /** `Closed` is what the scan gives for the fragment followed by ';'. */
  lemma ClosedIsExtractTerminated(w: string, t: string)
    requires |t| > 0 && Ends(t[0]) && '@' !in t
    ensures Extract(w + t) == Closed(w)
  {
    ScanTerminated([], w, t);
  }

  /** A joined list whose items are `pres[i] + "@" + ns[i]`, each prefix free
      of '@' and each name well formed, followed by a terminator, yields
      exactly the names `ns` in order: the generated placeholder lists of
      INSERT, UPDATE and the key-derived WHERE. */
  lemma {:induction false} ScanTaggedList(acc: seq<string>, items: seq<string>, pres: seq<string>,
                                          ns: seq<string>, sep: string, t: string)
    requires |items| == |pres| == |ns|
    requires forall i :: 0 <= i < |items| ==> items[i] == pres[i] + "@" + ns[i]
    requires forall i :: 0 <= i < |items| ==> '@' !in pres[i] && IsName(ns[i])
    requires |sep| > 0 && Ends(sep[0]) && '@' !in sep
    requires |t| > 0 && Ends(t[0]) && '@' !in t
    ensures Scan(Idle(acc), Join(items, sep) + t) == Idle(acc + ns)
    decreases |items|
  {
    var n := |items|;
    if n == 0 {
      assert Join(items, sep) + t == t;
      assert acc + ns == acc;
      ScanPlain(Idle(acc), t);
    } else {
      var front, last := Join(items[..n - 1], sep), items[n - 1];
      var mid := if n == 1 then Idle(acc) else Idle(acc + ns[..n - 1]);
      if n == 1 {
        assert Join(items, sep) + t == last + t;
        assert ns == [ns[0]];
      } else {
        ScanTaggedList(acc, items[..n - 1], pres[..n - 1], ns[..n - 1], sep, sep);
        assert Join(items, sep) + t == (front + sep) + (last + t);
        ScanAppend(Idle(acc), front + sep, last + t);
        assert ns == ns[..n - 1] + [ns[n - 1]];
      }
      assert Scan(Idle(acc), Join(items, sep) + t) == Scan(mid, last + t);
      TagThenTerminator(mid.names, pres[n - 1], ns[n - 1], t);
      assert last + t == pres[n - 1] + "@" + ns[n - 1] + t;
    }
  }

  /** Outside a tag, a prefix without '@' is skipped. */
  lemma ScanSkip(st: ScanState, pre: string, rest: string)
    requires !st.inTag && '@' !in pre
    ensures Scan(st, pre + rest) == Scan(st, rest)
  {
    ScanAppend(st, pre, rest);
    ScanPlain(st, pre);
  }

  /** `pre + "@" + name + t`, with `pre` free of '@', emits `name`. */
  lemma TagThenTerminator(acc: seq<string>, pre: string, name: string, t: string)
    requires '@' !in pre && IsName(name)
    requires |t| > 0 && Ends(t[0]) && '@' !in t
    ensures Scan(Idle(acc), pre + "@" + name + t) == Idle(acc + [name])
  {
    var rest := "@" + (name + t);
    assert pre + "@" + name + t == pre + rest;
    ScanAppend(Idle(acc), pre, rest);
    ScanPlain(Idle(acc), pre);
    assert rest[0] == '@' && rest[1..] == name + t;
    assert Scan(Idle(acc), rest) == Scan(ScanState(true, "", acc), name + t);
    EmitName(acc, name, t);
  }

  /** Inside a fresh tag, a name followed by a terminator is emitted. */
  lemma EmitName(acc: seq<string>, name: string, t: string)
    requires IsName(name)
    requires |t| > 0 && Ends(t[0]) && '@' !in t
    ensures Scan(ScanState(true, "", acc), name + t) == Idle(acc + [name])
  {
    ScanAppend(ScanState(true, "", acc), name, t);
    ScanNameChars("", acc, name);
    assert "" + name == name;
    assert Scan(ScanState(true, name, acc), t) == Scan(Idle(acc + [name]), t[1..]);
    assert '@' !in t[1..] by {
      assert forall c :: c in t[1..] ==> c in t;
    }
    ScanPlain(Idle(acc + [name]), t[1..]);
  }
}
