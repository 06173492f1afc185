/**
 * Worked cases of `standardize`, evaluated step by step: the classes of
 * the cases of standardize_test.go, a class that the collapse widens, and
 * a pattern on which a second application of `standardize` undoes the
 * first.
 */
module StandardizationExamples {
  import opened Wrappers
  import opened Standardization

  /** Pattern text without `\` is neither un-escaped nor exempt from the underscore step. */
  lemma NoBackslash(s: string)
    requires forall i :: 0 <= i < |s| ==> s[i] != '\\'
    ensures Unescapes(s) && Prepared(s) == s
  {
    ContainsDoubleEscaped(s);
    UnescapeClean(s);
  }

  /**
   * A pattern holding one bracket class, with plain text before and after
   * it, has that class run through the chain and the rest left as it is.
   */
  lemma OneClass(s: string, a: string, x: string, b: string)
    requires s == a + "[" + x + "]" + b
    requires '[' !in a && ']' !in x && ']' !in b && '\\' !in s
    ensures Standardize(s) == a + "[" + CanonicalClass(x, true) + "]" + b
  {
    NoBackslash(s);
    StandardizeIsClasswise(s);
    Framed(s, a, x, b, Steps(true));
    CanonicalSteps(x, true);
  }

  /** A pattern that is a single class, with nothing around it. */
  lemma BareClass(x: string)
    requires ']' !in x && '\\' !in x
    ensures Standardize("[" + x + "]") == "[" + CanonicalClass(x, true) + "]"
  {
    var s := "[" + x + "]";
    assert forall i :: 0 <= i < |s| ==> s[i] != '\\' by {
      assert forall i :: 1 <= i < |s| - 1 ==> s[i] == x[i - 1];
    }
    NoBackslash(s);
    StandardizeIsClasswise(s);
    SingleClass(s, x, Steps(true));
    CanonicalSteps(x, true);
  }

  lemma SingleClass(s: string, x: string, ts: seq<Token>)
    requires s == "[" + x + "]" && ']' !in x
    ensures Classwise(s, ts) == "[" + RewriteAll(x, ts) + "]"
  {
    var e := |s| - 1;
    assert forall i :: 1 <= i < e ==> s[i] == x[i - 1];
    FirstClose(s, 1, e);
    assert ClassEnd(s) == Some(e);
    assert s[1..e] == x && s[e + 1..] == "";
    ClassShape(s, e, ts);
  }

  /** The same for a pattern holding two bracket classes. */
  lemma TwoClasses(s: string, a: string, x: string, m: string, y: string, b: string)
    requires s == a + "[" + x + "]" + m + "[" + y + "]" + b
    requires '[' !in a && ']' !in x && '[' !in m && ']' !in y && ']' !in b && '\\' !in s
    ensures Standardize(s) == a + "[" + CanonicalClass(x, true) + "]" + m + "[" + CanonicalClass(y, true) + "]" + b
  {
    NoBackslash(s);
    StandardizeIsClasswise(s);
    TwoFramed(s, a, x, m, y, b, Steps(true));
    CanonicalSteps(x, true);
    CanonicalSteps(y, true);
  }

  /** Class-by-class rewriting of text with two classes between plain text. */
  lemma TwoFramed(s: string, a: string, x: string, m: string, y: string, b: string, ts: seq<Token>)
    requires s == a + "[" + x + "]" + m + "[" + y + "]" + b
    requires '[' !in a && ']' !in x && '[' !in m && ']' !in y && ']' !in b
    ensures Classwise(s, ts) == a + "[" + RewriteAll(x, ts) + "]" + m + "[" + RewriteAll(y, ts) + "]" + b
  {
    var r := m + "[" + y + "]" + b;
    TwoFraming(a, x, m, y, b);
    PlainThen(a, "[" + x + "]" + r, ts);
    ClassThen(x, r, ts);
    Framed(r, m, y, b, ts);
    Framing(a, x, r);
    var x', y' := RewriteAll(x, ts), RewriteAll(y, ts);
    Framing(a, x', m + "[" + y' + "]" + b);
    TwoFraming(a, x', m, y', b);
  }

  lemma TwoFraming(a: string, x: string, m: string, y: string, b: string)
    ensures a + "[" + x + "]" + m + "[" + y + "]" + b == a + "[" + x + "]" + (m + "[" + y + "]" + b)
  {
    var p := a + "[" + x + "]";
    Framing(p + m, y, b);
    Regroup(p, m, "[" + y + "]" + b);
    Framing(m, y, b);
  }

  /** Class-by-class rewriting of text with a class between plain text. */
  lemma Framed(s: string, a: string, x: string, b: string, ts: seq<Token>)
    requires s == a + "[" + x + "]" + b
    requires '[' !in a && ']' !in x && ']' !in b
    ensures Classwise(s, ts) == a + "[" + RewriteAll(x, ts) + "]" + b
  {
    PlainThen(a, "[" + x + "]" + b, ts);
    ClassLast(x, b, ts);
    Framing(a, x, b);
    Framing(a, RewriteAll(x, ts), b);
  }

  /** Concatenation regrouped: the plain prefix, then the class and the rest. */
  lemma Framing(a: string, x: string, b: string)
    ensures a + "[" + x + "]" + b == a + ("[" + x + "]" + b)
  {
    Regroup(a, "[" + x + "]", b);
    Regroup(a, "[" + x, "]");
    Regroup(a, "[", x);
  }

  lemma ClassLast(x: string, b: string, ts: seq<Token>)
    requires ']' !in x && ']' !in b
    ensures Classwise("[" + x + "]" + b, ts) == "[" + RewriteAll(x, ts) + "]" + b
  {
    ClassThen(x, b, ts);
    ClasswiseNoClose(b, ts);
  }

  /** Text without `[` in front is passed over. */
  lemma {:induction false} PlainThen(a: string, w: string, ts: seq<Token>)
    requires '[' !in a
    ensures Classwise(a + w, ts) == a + Classwise(w, ts)
    decreases |a|
  {
    if a != [] {
      var s := a + w;
      assert s[0] == a[0] && s[1..] == a[1..] + w;
      assert ClassEnd(s) == None;
      assert Classwise(s, ts) == [a[0]] + Classwise(a[1..] + w, ts);
      PlainThen(a[1..], w, ts);
      Regroup([a[0]], a[1..], Classwise(w, ts));
      assert a == [a[0]] + a[1..];
    } else {
      assert a + w == w;
    }
  }

  /** A class in front is rewritten, and the scan goes on behind its `]`. */
  lemma ClassThen(x: string, w: string, ts: seq<Token>)
    requires ']' !in x
    ensures Classwise("[" + x + "]" + w, ts) == "[" + RewriteAll(x, ts) + "]" + Classwise(w, ts)
  {
    Bracketed(x, w);
    ClassShape("[" + x + "]" + w, |x| + 1, ts);
  }

  lemma FirstClose(s: string, i: nat, e: nat)
    requires i <= e < |s| && s[e] == ']' && forall k :: i <= k < e ==> s[k] != ']'
    ensures FindClose(s, i) == Some(e)
  {
  }

  lemma LastIs(s: string, t: Token, p: nat)
    requires p < |s| && At(s, p, t) && forall i :: p < i < |s| ==> !At(s, i, t)
    ensures Last(s, t) == Some(p)
  {
  }

  lemma LastNone(s: string, t: Token)
    requires forall i :: 0 <= i < |s| ==> !At(s, i, t)
    ensures Last(s, t) == None
  {
  }

  /** The class of the test "hex2": digits move in front of the upper-case range. */
  lemma Hex2Class()
    ensures CanonicalClass("A-F0-9", true) == "0-9A-F"
  {
    var s := "A-F0-9";
    LastNone(s, Underscore);
    LastNone(s, LowerRange);
    LastIs(s, UpperRange, 0);
    LastIs(s, Digits, 3);
    LastNone("0-9A-F", WordSet);
  }

  /**
   * The class of the tests "numOrder" and "multiClass": `_` goes first, then
   * the lower-case range in front of it, then the digits in front of both.
   */
  lemma NumOrderClass(span: string)
    requires span == "a-z0-9-_"
    ensures CanonicalClass(span, true) == "0-9a-z_-"
  {
    var u := MoveUnderscore(span);
    var l := MoveLower(u);
    var d := MoveDigits(l);
    LastNone(d, WordSet);
  }

  lemma MoveUnderscore(span: string) returns (u: string)
    requires span == "a-z0-9-_"
    ensures u == "_a-z0-9-" && Rewrite(span, Underscore) == u
  {
    LastIs(span, Underscore, 7);
    u := "_a-z0-9-";
  }

  lemma MoveLower(u: string) returns (l: string)
    requires u == "_a-z0-9-"
    ensures l == "a-z_0-9-" && Rewrite(u, LowerRange) == l && Rewrite(l, UpperRange) == l
  {
    LastIs(u, LowerRange, 1);
    l := "a-z_0-9-";
    LastNone(l, UpperRange);
  }

  lemma MoveDigits(l: string) returns (d: string)
    requires l == "a-z_0-9-"
    ensures d == "0-9a-z_-" && Rewrite(l, Digits) == d
  {
    LastIs(l, Digits, 4);
    d := "0-9a-z_-";
  }

  /** The class of the test "ordering3": the digits move in front of `a-z`. */
  lemma Ordering3Class(span: string)
    requires span == "a-z0-9-"
    ensures CanonicalClass(span, true) == "0-9a-z-"
  {
    LastNone(span, Underscore);
    LastIs(span, LowerRange, 0);
    assert Rewrite(span, LowerRange) == span;
    LastNone(span, UpperRange);
    LastIs(span, Digits, 3);
    var d := "0-9a-z-";
    assert Rewrite(span, Digits) == d;
    LastNone(d, WordSet);
  }

  /** The class of the test "ordering": digits, then upper case, then lower case. */
  lemma OrderingClass(span: string)
    requires span == "a-zA-Z0-9"
    ensures CanonicalClass(span, true) == "0-9A-Za-z"
  {
    var u := OrderingUpper(span);
    var d := OrderingDigits(u);
    LastNone(d, WordSet);
  }

  lemma OrderingUpper(span: string) returns (u: string)
    requires span == "a-zA-Z0-9"
    ensures u == "A-Za-z0-9"
    ensures Rewrite(Rewrite(Rewrite(span, Underscore), LowerRange), UpperRange) == u
  {
    LastNone(span, Underscore);
    LastIs(span, LowerRange, 0);
    assert Rewrite(span, LowerRange) == span;
    LastIs(span, UpperRange, 3);
    u := "A-Za-z0-9";
  }

  lemma OrderingDigits(u: string) returns (d: string)
    requires u == "A-Za-z0-9"
    ensures d == "0-9A-Za-z" && Rewrite(u, Digits) == d
  {
    LastIs(u, Digits, 6);
    d := "0-9A-Za-z";
  }

  /**
   * The class of the test "everywhere": the four moves put `0-9A-Za-z_` in
   * front, and it collapses to `\w`.
   */
  lemma EverywhereClass(span: string)
    requires span == "A-Za-z0-9-*&_"
    ensures CanonicalClass(span, true) == "\\w-*&"
  {
    var u := EverywhereUnderscore(span);
    var l := EverywhereLower(u);
    var c := EverywhereUpper(l);
    var d := EverywhereDigits(c);
    var w := EverywhereWord(d);
  }

  lemma EverywhereUnderscore(s: string) returns (r: string)
    requires s == "A-Za-z0-9-*&_"
    ensures r == "_A-Za-z0-9-*&" && Rewrite(s, Underscore) == r
  {
    LastIs(s, Underscore, 12);
    r := "_A-Za-z0-9-*&";
  }

  lemma EverywhereLower(s: string) returns (r: string)
    requires s == "_A-Za-z0-9-*&"
    ensures r == "a-z_A-Z0-9-*&" && Rewrite(s, LowerRange) == r
  {
    LastIs(s, LowerRange, 4);
    r := "a-z_A-Z0-9-*&";
  }

  lemma EverywhereUpper(s: string) returns (r: string)
    requires s == "a-z_A-Z0-9-*&"
    ensures r == "A-Za-z_0-9-*&" && Rewrite(s, UpperRange) == r
  {
    LastIs(s, UpperRange, 4);
    r := "A-Za-z_0-9-*&";
  }

  lemma EverywhereDigits(s: string) returns (r: string)
    requires s == "A-Za-z_0-9-*&"
    ensures r == "0-9A-Za-z_-*&" && Rewrite(s, Digits) == r
  {
    LastIs(s, Digits, 7);
    r := "0-9A-Za-z_-*&";
  }

  lemma EverywhereWord(s: string) returns (r: string)
    requires s == "0-9A-Za-z_-*&"
    ensures r == "\\w-*&" && Rewrite(s, WordSet) == r
  {
    forall i | 1 <= i < |s|
      ensures !At(s, i, WordSet)
    {
      if i + 10 <= |s| {
        assert s[i..i + 10][0] == s[i];
      }
    }
    LastIs(s, WordSet, 0);
    r := "\\w-*&";
  }

  /**
   * The class of the test "hex": the ranges `A-F` and `a-f` are not `A-Z`
   * and `a-z`, so the class is reordered and not collapsed.
   */
  lemma HexClass(span: string)
    requires span == "A-Fa-f0-9-*&_"
    ensures CanonicalClass(span, true) == "0-9A-Fa-f_-*&"
  {
    var u := HexUnderscore(span);
    var l := HexLower(u);
    var c := HexUpper(l);
    var d := HexDigits(c);
    var w := HexWord(d);
  }

  lemma HexUnderscore(s: string) returns (r: string)
    requires s == "A-Fa-f0-9-*&_"
    ensures r == "_A-Fa-f0-9-*&" && Rewrite(s, Underscore) == r
  {
    LastIs(s, Underscore, 12);
    r := "_A-Fa-f0-9-*&";
  }

  lemma HexLower(s: string) returns (r: string)
    requires s == "_A-Fa-f0-9-*&"
    ensures r == "a-f_A-F0-9-*&" && Rewrite(s, LowerRange) == r
  {
    LastIs(s, LowerRange, 4);
    r := "a-f_A-F0-9-*&";
  }

  lemma HexUpper(s: string) returns (r: string)
    requires s == "a-f_A-F0-9-*&"
    ensures r == "A-Fa-f_0-9-*&" && Rewrite(s, UpperRange) == r
  {
    LastIs(s, UpperRange, 4);
    r := "A-Fa-f_0-9-*&";
  }

  lemma HexDigits(s: string) returns (r: string)
    requires s == "A-Fa-f_0-9-*&"
    ensures r == "0-9A-Fa-f_-*&" && Rewrite(s, Digits) == r
  {
    LastIs(s, Digits, 7);
    r := "0-9A-Fa-f_-*&";
  }

  lemma HexWord(s: string) returns (r: string)
    requires s == "0-9A-Fa-f_-*&"
    ensures r == "0-9A-Fa-f_-*&" && Rewrite(s, WordSet) == r
  {
    forall i | 0 <= i < |s|
      ensures !At(s, i, WordSet)
    {
      if i + 10 <= |s| {
        if i == 0 {
          assert s[0..10][5] == s[5];
        }
        assert s[i..i + 10][0] == s[i];
      }
    }
    LastNone(s, WordSet);
    r := "0-9A-Fa-f_-*&";
  }

  /**
   * The class of the test "ordering2": a leading `-` is passed over by every
   * move, and the class collapses.
   */
  lemma Ordering2Class(span: string)
    requires span == "-a-zA-Z0-9._"
    ensures CanonicalClass(span, true) == "\\w-."
  {
    var u := Ordering2Underscore(span);
    var l := Ordering2Lower(u);
    var c := Ordering2Upper(l);
    var d := Ordering2Digits(c);
    var w := Ordering2Word(d);
  }

  lemma Ordering2Underscore(s: string) returns (r: string)
    requires s == "-a-zA-Z0-9._"
    ensures r == "_-a-zA-Z0-9." && Rewrite(s, Underscore) == r
  {
    LastIs(s, Underscore, 11);
    r := "_-a-zA-Z0-9.";
  }

  lemma Ordering2Lower(s: string) returns (r: string)
    requires s == "_-a-zA-Z0-9."
    ensures r == "a-z_-A-Z0-9." && Rewrite(s, LowerRange) == r
  {
    LastIs(s, LowerRange, 2);
    r := "a-z_-A-Z0-9.";
  }

  lemma Ordering2Upper(s: string) returns (r: string)
    requires s == "a-z_-A-Z0-9."
    ensures r == "A-Za-z_-0-9." && Rewrite(s, UpperRange) == r
  {
    LastIs(s, UpperRange, 5);
    r := "A-Za-z_-0-9.";
  }

  lemma Ordering2Digits(s: string) returns (r: string)
    requires s == "A-Za-z_-0-9."
    ensures r == "0-9A-Za-z_-." && Rewrite(s, Digits) == r
  {
    LastIs(s, Digits, 8);
    r := "0-9A-Za-z_-.";
  }

  lemma Ordering2Word(s: string) returns (r: string)
    requires s == "0-9A-Za-z_-."
    ensures r == "\\w-." && Rewrite(s, WordSet) == r
  {
    forall i | 1 <= i < |s|
      ensures !At(s, i, WordSet)
    {
      if i + 10 <= |s| {
        assert s[i..i + 10][0] == s[i];
      }
    }
    LastIs(s, WordSet, 0);
    r := "\\w-.";
  }

  /** The class of the test "ordering4": reordered to `0-9A-Za-z_.-`, then collapsed. */
  lemma Ordering4Class(span: string)
    requires span == "a-zA-Z0-9._-"
    ensures CanonicalClass(span, true) == "\\w.-"
  {
    var u := Ordering4Underscore(span);
    var l := Ordering4Lower(u);
    var c := Ordering4Upper(l);
    var d := Ordering4Digits(c);
    var w := Ordering4Word(d);
  }

  lemma Ordering4Underscore(s: string) returns (r: string)
    requires s == "a-zA-Z0-9._-"
    ensures r == "_a-zA-Z0-9.-" && Rewrite(s, Underscore) == r
  {
    LastIs(s, Underscore, 10);
    r := "_a-zA-Z0-9.-";
  }

  lemma Ordering4Lower(s: string) returns (r: string)
    requires s == "_a-zA-Z0-9.-"
    ensures r == "a-z_A-Z0-9.-" && Rewrite(s, LowerRange) == r
  {
    LastIs(s, LowerRange, 1);
    r := "a-z_A-Z0-9.-";
  }

  lemma Ordering4Upper(s: string) returns (r: string)
    requires s == "a-z_A-Z0-9.-"
    ensures r == "A-Za-z_0-9.-" && Rewrite(s, UpperRange) == r
  {
    LastIs(s, UpperRange, 4);
    r := "A-Za-z_0-9.-";
  }

  lemma Ordering4Digits(s: string) returns (r: string)
    requires s == "A-Za-z_0-9.-"
    ensures r == "0-9A-Za-z_.-" && Rewrite(s, Digits) == r
  {
    LastIs(s, Digits, 7);
    r := "0-9A-Za-z_.-";
  }

  lemma Ordering4Word(s: string) returns (r: string)
    requires s == "0-9A-Za-z_.-"
    ensures r == "\\w.-" && Rewrite(s, WordSet) == r
  {
    forall i | 1 <= i < |s|
      ensures !At(s, i, WordSet)
    {
      if i + 10 <= |s| {
        assert s[i..i + 10][0] == s[i];
      }
    }
    LastIs(s, WordSet, 0);
    r := "\\w.-";
  }

  /**
   * The class of the test "ordering5": digits first already, yet the chain
   * moves them away and back before the collapse.
   */
  lemma Ordering5Class(span: string)
    requires span == "0-9a-zA-Z._-"
    ensures CanonicalClass(span, true) == "\\w.-"
  {
    var u := Ordering5Underscore(span);
    var l := Ordering5Lower(u);
    var c := Ordering5Upper(l);
    var d := Ordering4Digits(c);
    var w := Ordering4Word(d);
  }

  lemma Ordering5Underscore(s: string) returns (r: string)
    requires s == "0-9a-zA-Z._-"
    ensures r == "_0-9a-zA-Z.-" && Rewrite(s, Underscore) == r
  {
    LastIs(s, Underscore, 10);
    r := "_0-9a-zA-Z.-";
  }

  lemma Ordering5Lower(s: string) returns (r: string)
    requires s == "_0-9a-zA-Z.-"
    ensures r == "a-z_0-9A-Z.-" && Rewrite(s, LowerRange) == r
  {
    LastIs(s, LowerRange, 4);
    r := "a-z_0-9A-Z.-";
  }

  lemma Ordering5Upper(s: string) returns (r: string)
    requires s == "a-z_0-9A-Z.-"
    ensures r == "A-Za-z_0-9.-" && Rewrite(s, UpperRange) == r
  {
    LastIs(s, UpperRange, 7);
    r := "A-Za-z_0-9.-";
  }

  /**
   * The class of the test "badEscaping" after `\_` became `_`: reordered,
   * then collapsed; `\-` stays.
   */
  lemma BadEscapingClass(span: string)
    requires span == "0-9a-zA-Z._\\-"
    ensures CanonicalClass(span, true) == "\\w.\\-"
  {
    var u := BadEscapingUnderscore(span);
    var l := BadEscapingLower(u);
    var c := BadEscapingUpper(l);
    var d := BadEscapingDigits(c);
    var w := BadEscapingWord(d);
  }

  lemma BadEscapingUnderscore(s: string) returns (r: string)
    requires s == "0-9a-zA-Z._\\-"
    ensures r == "_0-9a-zA-Z.\\-" && Rewrite(s, Underscore) == r
  {
    LastIs(s, Underscore, 10);
    r := "_0-9a-zA-Z.\\-";
  }

  lemma BadEscapingLower(s: string) returns (r: string)
    requires s == "_0-9a-zA-Z.\\-"
    ensures r == "a-z_0-9A-Z.\\-" && Rewrite(s, LowerRange) == r
  {
    LastIs(s, LowerRange, 4);
    r := "a-z_0-9A-Z.\\-";
  }

  lemma BadEscapingUpper(s: string) returns (r: string)
    requires s == "a-z_0-9A-Z.\\-"
    ensures r == "A-Za-z_0-9.\\-" && Rewrite(s, UpperRange) == r
  {
    LastIs(s, UpperRange, 7);
    r := "A-Za-z_0-9.\\-";
  }

  lemma BadEscapingDigits(s: string) returns (r: string)
    requires s == "A-Za-z_0-9.\\-"
    ensures r == "0-9A-Za-z_.\\-" && Rewrite(s, Digits) == r
  {
    LastIs(s, Digits, 7);
    r := "0-9A-Za-z_.\\-";
  }

  lemma BadEscapingWord(s: string) returns (r: string)
    requires s == "0-9A-Za-z_.\\-"
    ensures r == "\\w.\\-" && Rewrite(s, WordSet) == r
  {
    forall i | 1 <= i < |s|
      ensures !At(s, i, WordSet)
    {
      if i + 10 <= |s| {
        assert s[i..i + 10][0] == s[i];
      }
    }
    LastIs(s, WordSet, 0);
    r := "\\w.\\-";
  }

  /**
   * The class of the test "badEscaping2": the pattern holds `\\_`, so the
   * underscore step is skipped, the `_` stays behind `\\`, and no collapse
   * happens.
   */
  lemma BadEscaping2Class(span: string)
    requires span == "0-9a-zA-Z.\\\\_\\-"
    ensures CanonicalClass(span, false) == "0-9A-Za-z.\\\\_\\-"
  {
    var l := BadEscaping2Lower(span);
    var c := BadEscaping2Upper(l);
    var d := BadEscaping2Digits(c);
    var w := BadEscaping2Word(d);
  }

  lemma BadEscaping2Lower(s: string) returns (r: string)
    requires s == "0-9a-zA-Z.\\\\_\\-"
    ensures r == "a-z0-9A-Z.\\\\_\\-" && Rewrite(s, LowerRange) == r
  {
    LastIs(s, LowerRange, 3);
    r := "a-z0-9A-Z.\\\\_\\-";
  }

  lemma BadEscaping2Upper(s: string) returns (r: string)
    requires s == "a-z0-9A-Z.\\\\_\\-"
    ensures r == "A-Za-z0-9.\\\\_\\-" && Rewrite(s, UpperRange) == r
  {
    LastIs(s, UpperRange, 6);
    r := "A-Za-z0-9.\\\\_\\-";
  }

  lemma BadEscaping2Digits(s: string) returns (r: string)
    requires s == "A-Za-z0-9.\\\\_\\-"
    ensures r == "0-9A-Za-z.\\\\_\\-" && Rewrite(s, Digits) == r
  {
    LastIs(s, Digits, 6);
    r := "0-9A-Za-z.\\\\_\\-";
  }

  lemma BadEscaping2Word(s: string) returns (r: string)
    requires s == "0-9A-Za-z.\\\\_\\-"
    ensures r == "0-9A-Za-z.\\\\_\\-" && Rewrite(s, WordSet) == r
  {
    forall i | 0 <= i < |s|
      ensures !At(s, i, WordSet)
    {
      if i + 10 <= |s| {
        if i == 0 {
          assert s[0..10][9] == s[9];
        }
        assert s[i..i + 10][0] == s[i];
      }
    }
    LastNone(s, WordSet);
    r := "0-9A-Za-z.\\\\_\\-";
  }

  /**
   * The class `Aa-z-Z0-9_` holds `A`, the range `a-z`, `-`, `Z`, the digits
   * and `_`, and no upper-case range. Its tokens are found across those
   * items: the chain reaches `0-9A-Za-z_` and collapses it, so `standardize`
   * turns `[Aa-z-Z0-9_]` into `[\w]`, which matches `B` to `Y` and no longer
   * matches `-`.
   */
  lemma WidenedClass(span: string)
    requires span == "Aa-z-Z0-9_"
    ensures forall i :: 0 <= i < |span| ==> !At(span, i, UpperRange)
    ensures CanonicalClass(span, true) == "\\w"
  {
    WidenedNoRange(span);
    var u := WidenedUnderscore(span);
    var l := WidenedLower(u);
    var c := WidenedUpper(l);
    var d := WidenedDigits(c);
    var w := WidenedWord(d);
  }

  lemma WidenedNoRange(s: string)
    requires s == "Aa-z-Z0-9_"
    ensures forall i :: 0 <= i < |s| ==> !At(s, i, UpperRange)
  {
    assert s[0] == 'A' && s[1] == 'a';
  }

  lemma WidenedUnderscore(s: string) returns (r: string)
    requires s == "Aa-z-Z0-9_"
    ensures r == "_Aa-z-Z0-9" && Rewrite(s, Underscore) == r
  {
    LastIs(s, Underscore, 9);
    r := "_Aa-z-Z0-9";
  }

  lemma WidenedLower(s: string) returns (r: string)
    requires s == "_Aa-z-Z0-9"
    ensures r == "a-z_A-Z0-9" && Rewrite(s, LowerRange) == r
  {
    LastIs(s, LowerRange, 2);
    r := "a-z_A-Z0-9";
  }

  lemma WidenedUpper(s: string) returns (r: string)
    requires s == "a-z_A-Z0-9"
    ensures r == "A-Za-z_0-9" && Rewrite(s, UpperRange) == r
  {
    LastIs(s, UpperRange, 4);
    r := "A-Za-z_0-9";
  }

  lemma WidenedDigits(s: string) returns (r: string)
    requires s == "A-Za-z_0-9"
    ensures r == "0-9A-Za-z_" && Rewrite(s, Digits) == r
  {
    LastIs(s, Digits, 7);
    r := "0-9A-Za-z_";
  }

  lemma WidenedWord(s: string) returns (r: string)
    requires s == "0-9A-Za-z_"
    ensures r == "\\w" && Rewrite(s, WordSet) == r
  {
    LastIs(s, WordSet, 0);
    r := "\\w";
  }

  /**
   * A move can join pieces into a new token. The class `a-0-9z_` holds no
   * lower-case range, but once `0-9` has moved out, `a-` and `z` meet and
   * form `a-z` behind `_`. The digits step runs last, so nothing moves that
   * range again, and the result puts `_` before the lower-case range.
   */
  lemma JoinedClass(span: string)
    requires span == "a-0-9z_"
    ensures forall i :: 0 <= i < |span| ==> !At(span, i, LowerRange)
    ensures CanonicalClass(span, true) == "0-9_a-z"
  {
    assert span[0] == 'a' && span[1] == '-' && span[2] == '0';
    LastIs(span, Underscore, 6);
    var u := "_a-0-9z";
    assert Rewrite(span, Underscore) == u;
    LastNone(u, LowerRange);
    LastNone(u, UpperRange);
    LastIs(u, Digits, 3);
    var d := "0-9_a-z";
    assert Rewrite(u, Digits) == d;
    LastNone(d, WordSet);
  }

  /**
   * The same join can widen a class. `\a-0-9z_` is the range from the bell
   * character to `0`, then `-`, `9`, `z` and `_`. Once `0-9` has moved out,
   * `\a-z` remains: a range from the bell character to `z`.
   */
  lemma JoinedRange(span: string)
    requires span == "\\a-0-9z_"
    ensures CanonicalClass(span, true) == "0-9_\\a-z"
  {
    assert span[1] == 'a' && span[2] == '-' && span[3] == '0';
    LastIs(span, Underscore, 7);
    var u := "_\\a-0-9z";
    assert Rewrite(span, Underscore) == u;
    LastNone(u, LowerRange);
    LastNone(u, UpperRange);
    LastIs(u, Digits, 4);
    var d := "0-9_\\a-z";
    assert Rewrite(u, Digits) == d;
    LastNone(d, WordSet);
  }

  /** Of two upper-case ranges the rightmost moves to the front. */
  lemma SwapForward(a: string, b: string)
    requires a == "A-FA-Z" && b == "A-ZA-F"
    ensures CanonicalClass(a, true) == b
  {
    LastNone(a, Underscore);
    LastNone(a, LowerRange);
    LastIs(a, UpperRange, 3);
    LastNone(b, Digits);
    LastNone(b, WordSet);
  }

  lemma SwapBack(a: string, b: string)
    requires a == "A-FA-Z" && b == "A-ZA-F"
    ensures CanonicalClass(b, true) == a
  {
    LastNone(b, Underscore);
    LastNone(b, LowerRange);
    LastIs(b, UpperRange, 3);
    LastNone(a, Digits);
    LastNone(a, WordSet);
  }

  lemma SwappedForward(a: string, b: string)
    requires a == "A-FA-Z" && b == "A-ZA-F"
    ensures Standardize("[" + a + "]") == "[" + b + "]"
  {
    SwapForward(a, b);
    BareClass(a);
  }

  lemma SwappedBack(a: string, b: string)
    requires a == "A-FA-Z" && b == "A-ZA-F"
    ensures Standardize("[" + b + "]") == "[" + a + "]"
  {
    SwapBack(a, b);
    BareClass(b);
  }

  /**
   * `standardize` is not idempotent: applied to `[A-FA-Z]` it swaps the
   * two ranges, and applied again it swaps them back.
   */
  lemma NotIdempotent(a: string, b: string)
    requires a == "A-FA-Z" && b == "A-ZA-F"
    ensures Standardize("[" + a + "]") == "[" + b + "]"
    ensures Standardize(Standardize("[" + a + "]")) == "[" + a + "]"
    ensures "[" + a + "]" != "[" + b + "]"
  {
    SwappedForward(a, b);
    SwappedBack(a, b);
    Differ(a, b);
  }

  lemma Differ(a: string, b: string)
    requires a == "A-FA-Z" && b == "A-ZA-F"
    ensures "[" + a + "]" != "[" + b + "]"
  {
    assert ("[" + a + "]")[3] == a[2] != b[2] == ("[" + b + "]")[3];
  }
}
