/**
 * The test table of standardize_test.go, evaluated on whole patterns: each
 * lemma states that `standardize` maps the input of one case to the
 * expected output. Each proof cuts the pattern into the plain text around
 * its classes and the class contents, and takes the canonical form of each
 * class from StandardizationExamples.
 */
module StandardizationCases {
  import opened Standardization
  import opened StandardizationExamples

  /** "empty": the empty pattern comes back empty. */
  lemma EmptyCase(s: string)
    requires s == ""
    ensures Standardize(s) == ""
  {
    ContainsEscaped(s);
    NoOpenNoClasses(s);
    StandardizeUnchanged(s);
  }

  /** "basic": `.*\S.*` holds no class and no `\_`, and comes back unchanged. */
  lemma BasicCase(s: string)
    requires s == ".*\\S.*"
    ensures Standardize(s) == ".*\\S.*"
  {
    ContainsEscaped(s);
    NoOpenNoClasses(s);
    StandardizeUnchanged(s);
  }

  /** "parenthesis": the classes `[^~]` and `[01]` hold no token, so nothing changes. */
  lemma ParenthesisCase(s: string)
    requires s == "(/)|(/(([^~])|(~[01]))+)"
    ensures Standardize(s) == "(/)|(/(([^~])|(~[01]))+)"
  {
    var a, x, m, y, b := "(/)|(/((", "^~", ")|(~", "01", "))+)";
    assert s == a + "[" + x + "]" + m + "[" + y + "]" + b;
    assert '[' !in a && ']' !in x && '[' !in m && ']' !in y && ']' !in b && '\\' !in s;
    assert Plain(x) && Plain(y);
    TwoClasses(s, a, x, m, y, b);
    Untouched(x);
    Untouched(y);
  }

  /** "numOrder": `^[a-z0-9-_]+$` becomes `^[0-9a-z_-]+$`. */
  lemma NumOrderCase(s: string)
    requires s == "^[a-z0-9-_]+$"
    ensures Standardize(s) == "^[0-9a-z_-]+$"
  {
    var a, x, y, b := "^", "a-z0-9-_", "0-9a-z_-", "+$";
    assert s == a + "[" + x + "]" + b;
    assert "^[0-9a-z_-]+$" == a + "[" + y + "]" + b;
    assert '[' !in a && ']' !in x && ']' !in b && '\\' !in s;
    OneClass(s, a, x, b);
    NumOrderClass(x);
  }

  /** "multiClass": both classes of `^[a-z0-9-_]+[a-z0-9-_]+$` are reordered, each on its own. */
  lemma MultiClassCase(s: string)
    requires s == "^[a-z0-9-_]+[a-z0-9-_]+$"
    ensures Standardize(s) == "^[0-9a-z_-]+[0-9a-z_-]+$"
  {
    var a, x, m, b := MultiClassPieces(s);
    TwoClasses(s, a, x, m, x, b);
    NumOrderClass(x);
  }

  lemma MultiClassPieces(s: string) returns (a: string, x: string, m: string, b: string)
    requires s == "^[a-z0-9-_]+[a-z0-9-_]+$"
    ensures x == "a-z0-9-_" && s == a + "[" + x + "]" + m + "[" + x + "]" + b
    ensures "^[0-9a-z_-]+[0-9a-z_-]+$" == a + "[" + "0-9a-z_-" + "]" + m + "[" + "0-9a-z_-" + "]" + b
    ensures '[' !in a && ']' !in x && '[' !in m && ']' !in b && '\\' !in s
  {
    a, x, m, b := "^", "a-z0-9-_", "+", "+$";
    var y := "0-9a-z_-";
    assert s == a + "[" + x + "]" + m + "[" + x + "]" + b;
    assert "^[0-9a-z_-]+[0-9a-z_-]+$" == a + "[" + y + "]" + m + "[" + y + "]" + b;
  }

  /** "everywhere": `^[A-Za-z0-9-*&_]+$` becomes `^[\w-*&]+$`. */
  lemma EverywhereCase(s: string)
    requires s == "^[A-Za-z0-9-*&_]+$"
    ensures Standardize(s) == "^[\\w-*&]+$"
  {
    var a, x, y, b := "^", "A-Za-z0-9-*&_", "\\w-*&", "+$";
    assert s == a + "[" + x + "]" + b;
    assert "^[\\w-*&]+$" == a + "[" + y + "]" + b;
    assert '[' !in a && ']' !in x && ']' !in b && '\\' !in s;
    OneClass(s, a, x, b);
    EverywhereClass(x);
  }

  /** "hex": `^[A-Fa-f0-9-*&_]+$` becomes `^[0-9A-Fa-f_-*&]+$`, not collapsed. */
  lemma HexCase(s: string)
    requires s == "^[A-Fa-f0-9-*&_]+$"
    ensures Standardize(s) == "^[0-9A-Fa-f_-*&]+$"
  {
    var a, x, b := HexPieces(s);
    OneClass(s, a, x, b);
    HexClass(x);
  }

  lemma HexPieces(s: string) returns (a: string, x: string, b: string)
    requires s == "^[A-Fa-f0-9-*&_]+$"
    ensures x == "A-Fa-f0-9-*&_" && s == a + "[" + x + "]" + b
    ensures "^[0-9A-Fa-f_-*&]+$" == a + "[" + "0-9A-Fa-f_-*&" + "]" + b
    ensures '[' !in a && ']' !in x && ']' !in b && '\\' !in s
  {
    a, x, b := "^", "A-Fa-f0-9-*&_", "+$";
    var y := "0-9A-Fa-f_-*&";
    assert s == a + "[" + x + "]" + b;
    assert "^[0-9A-Fa-f_-*&]+$" == a + "[" + y + "]" + b;
  }

  /** "hex2": `^#[A-F0-9]{6}$` becomes `^#[0-9A-F]{6}$`. */
  lemma Hex2Case(s: string)
    requires s == "^#[A-F0-9]{6}$"
    ensures Standardize(s) == "^#[0-9A-F]{6}$"
  {
    var a, x, y, b := "^#", "A-F0-9", "0-9A-F", "{6}$";
    assert s == a + "[" + x + "]" + b;
    assert "^#[0-9A-F]{6}$" == a + "[" + y + "]" + b;
    assert '[' !in a && ']' !in x && ']' !in b && '\\' !in s;
    OneClass(s, a, x, b);
    Hex2Class();
  }

  /** "ordering": `^[a-zA-Z0-9]+$` becomes `^[0-9A-Za-z]+$`. */
  lemma OrderingCase(s: string)
    requires s == "^[a-zA-Z0-9]+$"
    ensures Standardize(s) == "^[0-9A-Za-z]+$"
  {
    var a, x, y, b := "^", "a-zA-Z0-9", "0-9A-Za-z", "+$";
    assert s == a + "[" + x + "]" + b;
    assert "^[0-9A-Za-z]+$" == a + "[" + y + "]" + b;
    assert '[' !in a && ']' !in x && ']' !in b && '\\' !in s;
    OneClass(s, a, x, b);
    OrderingClass(x);
  }

  /** "ordering2": `^[-a-zA-Z0-9._]*$` becomes `^[\w-.]*$`. */
  lemma Ordering2Case(s: string)
    requires s == "^[-a-zA-Z0-9._]*$"
    ensures Standardize(s) == "^[\\w-.]*$"
  {
    var a, x, y, b := "^", "-a-zA-Z0-9._", "\\w-.", "*$";
    assert s == a + "[" + x + "]" + b;
    assert "^[\\w-.]*$" == a + "[" + y + "]" + b;
    assert '[' !in a && ']' !in x && ']' !in b && '\\' !in s;
    OneClass(s, a, x, b);
    Ordering2Class(x);
  }

  /** "ordering3": `^[a-z0-9-]+$` becomes `^[0-9a-z-]+$`. */
  lemma Ordering3Case(s: string)
    requires s == "^[a-z0-9-]+$"
    ensures Standardize(s) == "^[0-9a-z-]+$"
  {
    var a, x, y, b := "^", "a-z0-9-", "0-9a-z-", "+$";
    assert s == a + "[" + x + "]" + b;
    assert "^[0-9a-z-]+$" == a + "[" + y + "]" + b;
    assert '[' !in a && ']' !in x && ']' !in b && '\\' !in s;
    OneClass(s, a, x, b);
    Ordering3Class(x);
  }

  /** "ordering4": `^[a-zA-Z0-9._-]*$` becomes `^[\w.-]*$`. */
  lemma Ordering4Case(s: string)
    requires s == "^[a-zA-Z0-9._-]*$"
    ensures Standardize(s) == "^[\\w.-]*$"
  {
    var a, x, y, b := "^", "a-zA-Z0-9._-", "\\w.-", "*$";
    assert s == a + "[" + x + "]" + b;
    assert "^[\\w.-]*$" == a + "[" + y + "]" + b;
    assert '[' !in a && ']' !in x && ']' !in b && '\\' !in s;
    OneClass(s, a, x, b);
    Ordering4Class(x);
  }

  /** "ordering5": `^[0-9a-zA-Z._-]+` becomes `^[\w.-]+`. */
  lemma Ordering5Case(s: string)
    requires s == "^[0-9a-zA-Z._-]+"
    ensures Standardize(s) == "^[\\w.-]+"
  {
    var a, x, y, b := "^", "0-9a-zA-Z._-", "\\w.-", "+";
    assert s == a + "[" + x + "]" + b;
    assert "^[\\w.-]+" == a + "[" + y + "]" + b;
    assert '[' !in a && ']' !in x && ']' !in b && '\\' !in s;
    OneClass(s, a, x, b);
    Ordering5Class(x);
  }

  /**
   * "badEscaping": `[0-9a-zA-Z.\_\-]+$` holds no `\\_`, so `\_` is
   * un-escaped first; the class then collapses, giving `[\w.\-]+$`.
   */
  lemma BadEscapingCase(s: string)
    requires s == "[0-9a-zA-Z.\\_\\-]+$"
    ensures Standardize(s) == "[\\w.\\-]+$"
  {
    var x, y, b := "0-9a-zA-Z._\\-", "\\w.\\-", "+$";
    var p1, p2 := "[0-9a-zA-Z.", "\\-]+$";
    assert s == p1 + Escaped + p2;
    assert p1 + "_" + p2 == "[" + x + "]" + b;
    assert "[\\w.\\-]+$" == "[" + y + "]" + b;
    assert ']' !in x && ']' !in b;
    assert forall i: nat :: !EscapeAt(p1, i);
    assert forall i: nat :: !EscapeAt(p2, i);
    assert forall i: nat :: !DoubleEscapeAt(s, i);
    ContainsDoubleEscaped(s);
    UnescapeSplit(p1, p2);
    UnescapeClean(p1);
    UnescapeClean(p2);
    StandardizeIsClasswise(s);
    ClassLast(x, b, Steps(true));
    CanonicalSteps(x, true);
    BadEscapingClass(x);
  }

  /**
   * "badEscaping2": `[0-9a-zA-Z.\\_\-]+$` holds `\\_`, so nothing is
   * un-escaped and `_` is not moved; the class is reordered and not
   * collapsed, giving `[0-9A-Za-z.\\_\-]+$`.
   */
  lemma BadEscaping2Case(s: string)
    requires s == "[0-9a-zA-Z.\\\\_\\-]+$"
    ensures Standardize(s) == "[0-9A-Za-z.\\\\_\\-]+$"
  {
    var x, y, b := "0-9a-zA-Z.\\\\_\\-", "0-9A-Za-z.\\\\_\\-", "+$";
    assert s == "[" + x + "]" + b;
    assert "[0-9A-Za-z.\\\\_\\-]+$" == "[" + y + "]" + b;
    assert ']' !in x && ']' !in b;
    assert DoubleEscapeAt(s, 11);
    ContainsDoubleEscaped(s);
    StandardizeIsClasswise(s);
    ClassLast(x, b, Steps(false));
    CanonicalSteps(x, false);
    BadEscaping2Class(x);
  }

  /** A class holding none of the tokens is its own canonical form. */
  lemma Untouched(x: string)
    requires Plain(x)
    ensures CanonicalClass(x, true) == x
  {
    RewriteAllPlain(x, Steps(true));
    CanonicalSteps(x, true);
  }
}
