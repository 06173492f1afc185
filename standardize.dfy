/**
 * The pattern canonicaliser `standardize` of regexache.
 *
 * `standardize` is a fixed chain of textual rewrites: it un-escapes `\_`
 * (unless the pattern holds `\\_`), then applies five substitutions of the
 * shape `(\[)([^\]]*)(T)([^\]]*)(\])`, each of which moves a token T to the
 * front of a bracket class, and finally replaces `0-9A-Za-z_` by `\w`.
 *
 * `ReplaceAll` below is the behaviour of `Regexp.ReplaceAllString` for that
 * one pattern shape, written out as a left-to-right scan; `Classwise` is an
 * independent, class-by-class reading of the same transformation, and the
 * lemma `ReplaceAllIsClasswise` shows that the two agree.
 */
module Standardization {
  import opened Wrappers

  /** The tokens the five substitutions look for. */
  datatype Token =
    | Underscore   // `_`
    | LowerRange   // `a-[b-z]`
    | UpperRange   // `A-[B-Z]`
    | Digits       // `0-9`
    | WordSet      // `0-9A-Za-z_`

  const WordText: string := "0-9A-Za-z_"

  /** The shorthand that replaces WordText. */
  const WordClass: string := "\\w"

  /** The four tokens that are moved, as opposed to replaced. */
  predicate Moved(t: Token) {
    t != WordSet
  }

  function Width(t: Token): (w: nat) {
    match t
    case Underscore => 1
    case LowerRange => 3
    case UpperRange => 3
    case Digits => 3
    case WordSet => 10
  }

  /** Token t occurs in s starting at index i. */
  predicate At(s: string, i: nat, t: Token) {
    i + Width(t) <= |s| &&
    match t
    case Underscore => s[i] == '_'
    case LowerRange => s[i] == 'a' && s[i + 1] == '-' && 'b' <= s[i + 2] <= 'z'
    case UpperRange => s[i] == 'A' && s[i + 1] == '-' && 'B' <= s[i + 2] <= 'Z'
    case Digits => s[i] == '0' && s[i + 1] == '-' && s[i + 2] == '9'
    case WordSet => s[i..i + 10] == WordText
  }

  ghost predicate Occurs(s: string, t: Token) {
    exists i :: 0 <= i < |s| && At(s, i, t)
  }

  /**
   * The start of the rightmost occurrence of t in s that begins below n.
   * The greedy group `([^\]]*)` in front of T makes the substitution pick
   * the rightmost occurrence inside the class.
   */
  function FindLast(s: string, t: Token, n: nat): (r: Option<nat>)
    requires n <= |s|
    ensures r.Some? ==> r.value < n && At(s, r.value, t)
    ensures r.Some? ==> forall i :: r.value < i < n ==> !At(s, i, t)
    ensures r.None? ==> forall i :: 0 <= i < n ==> !At(s, i, t)
    decreases n
  {
    if n == 0 then None
    else if At(s, n - 1, t) then Some(n - 1)
    else FindLast(s, t, n - 1)
  }

  function Last(s: string, t: Token): (r: Option<nat>)
  {
    FindLast(s, t, |s|)
  }

  /** The index of the first `]` in s at or after i, if any. */
  function FindClose(s: string, i: nat): (r: Option<nat>)
    requires i <= |s|
    ensures r.Some? ==> i <= r.value < |s| && s[r.value] == ']'
    ensures r.Some? ==> forall k :: i <= k < r.value ==> s[k] != ']'
    ensures r.None? ==> forall k :: i <= k < |s| ==> s[k] != ']'
    decreases |s| - i
  {
    if i == |s| then None
    else if s[i] == ']' then Some(i)
    else FindClose(s, i + 1)
  }

  /**
   * When s starts with `[`, the index of the `]` that closes this bracket
   * class: the first `]` after the `[`. The class contents are s[1..e].
   */
  function ClassEnd(s: string): (r: Option<nat>)
  {
    if s != [] && s[0] == '[' then FindClose(s, 1) else None
  }

  /** What the template puts in place of the token: `$3`, or `\w` for WordSet. */
  function Front(t: Token, found: string): (r: string) {
    if t == WordSet then WordClass else found
  }

  /**
   * The contents of one bracket class after one substitution: the rightmost
   * occurrence of t moves to the front (`$1$3$2$4$5`), or WordText becomes
   * `\w` (`$1\w$2$4$5`); a class without t is left as it is.
   */
  function Rewrite(span: string, t: Token): (r: string)
    ensures |r| <= |span|
    ensures Moved(t) ==> |r| == |span|
  {
    match Last(span, t)
    case None => span
    case Some(p) =>
      Front(t, span[p..p + Width(t)]) + span[..p] + span[p + Width(t)..]
  }

  /**
   * Whether a match of the substitution for t starts at s[0]: s opens a
   * class there, with `[`, whose contents up to the first `]` hold t. The
   * result is the index of that `]`; there is no match exactly when the
   * text after a leading `[` has no `]`, or the text before the first one
   * holds no t.
   */
  function MatchAt(s: string, t: Token): (r: Option<nat>)
    ensures r.Some? ==>
      0 < r.value < |s| && s[0] == '[' && s[r.value] == ']' &&
      (forall k :: 1 <= k < r.value ==> s[k] != ']') && Occurs(s[1..r.value], t)
    ensures r.None? && s != [] && s[0] == '[' ==>
      forall e :: 1 <= e < |s| && s[e] == ']' && (forall k :: 1 <= k < e ==> s[k] != ']') ==>
        !Occurs(s[1..e], t)
  {
    match ClassEnd(s)
    case Some(e) => if Last(s[1..e], t).Some? then Some(e) else None
    case None => None
  }

  /**
   * `Regexp.ReplaceAllString` for `(\[)([^\]]*)(T)([^\]]*)(\])`, scanning left
   * to right. At a `[` the match, if any, ends at the first `]` after it; it
   * exists when the text in between holds t. After a match the scan resumes
   * behind its `]`, otherwise one character further on.
   */
  function ReplaceAll(s: string, t: Token): (r: string)
    ensures |r| <= |s|
    ensures Moved(t) ==> |r| == |s|
    decreases |s|
  {
    if s == [] then ""
    else
      match MatchAt(s, t)
      case Some(e) => "[" + Rewrite(s[1..e], t) + "]" + ReplaceAll(s[e + 1..], t)
      case None => [s[0]] + ReplaceAll(s[1..], t)
  }

  /** The class contents after the substitutions ts, one after the other. */
  function RewriteAll(span: string, ts: seq<Token>): (r: string)
    decreases |ts|
  {
    if ts == [] then span else Rewrite(RewriteAll(span, ts[..|ts| - 1]), ts[|ts| - 1])
  }

  /**
   * Reference reading: the string cut into plain text and bracket classes,
   * where a class runs from a `[` to the first `]` after it (a `[` with no
   * `]` after it is plain text). Plain text is kept, and every class has the
   * substitutions ts applied to its contents on its own.
   */
  function Classwise(s: string, ts: seq<Token>): (r: string)
    decreases |s|
  {
    if s == [] then ""
    else
      match ClassEnd(s)
      case Some(e) => "[" + RewriteAll(s[1..e], ts) + "]" + Classwise(s[e + 1..], ts)
      case None => [s[0]] + Classwise(s[1..], ts)
  }

  /** The contents of the bracket classes of s, in order. */
  function Classes(s: string): (r: seq<string>)
    decreases |s|
  {
    if s == [] then []
    else
      match ClassEnd(s)
      case Some(e) => [s[1..e]] + Classes(s[e + 1..])
      case None => Classes(s[1..])
  }

  /** s with the contents of every bracket class emptied: the text outside classes. */
  function Outline(s: string): (r: string)
    decreases |s|
  {
    if s == [] then ""
    else
      match ClassEnd(s)
      case Some(e) => "[]" + Outline(s[e + 1..])
      case None => [s[0]] + Outline(s[1..])
  }

  /** sub occurs in s starting at index i. */
  predicate SubAt(s: string, sub: string, i: nat) {
    i + |sub| <= |s| && s[i..i + |sub|] == sub
  }

  /** `strings.Contains`. */
  predicate Contains(s: string, sub: string): (r: bool)
    ensures r ==> |sub| <= |s|
    ensures SubAt(s, sub, 0) ==> r
    ensures sub == [] ==> r
  {
    exists i :: 0 <= i <= |s| && SubAt(s, sub, i)
  }

  /** `strings.ReplaceAll(s, `\_`, "_")`. */
  function Unescape(s: string): (r: string)
    ensures |r| <= |s|
    ensures |r| == |s| <==> forall i: nat :: !EscapeAt(s, i)
    decreases |s|
  {
    if |s| >= 2 && s[0] == '\\' && s[1] == '_' then assert EscapeAt(s, 0); "_" + Unescape(s[2..])
    else if s == [] then ""
    else
      EscapeTail(s);
      [s[0]] + Unescape(s[1..])
  }

  /** Past a first character that starts no `\_`, the escapes are those of the rest. */
  lemma EscapeTail(s: string)
    requires s != [] && !(|s| >= 2 && s[0] == '\\' && s[1] == '_')
    ensures (forall i: nat :: !EscapeAt(s, i)) <==> (forall i: nat :: !EscapeAt(s[1..], i))
  {
    if forall i: nat :: !EscapeAt(s, i) {
      forall i: nat
        ensures !EscapeAt(s[1..], i)
      {
        assert !EscapeAt(s, i + 1);
      }
    }
    if forall i: nat :: !EscapeAt(s[1..], i) {
      forall i: nat
        ensures !EscapeAt(s, i)
      {
        if i > 0 {
          assert !EscapeAt(s[1..], i - 1);
        }
      }
    }
  }

  const Escaped: string := "\\_"
  const DoubleEscaped: string := "\\\\_"

  /** Whether the underscore steps run: the pattern holds no `\\_`. */
  predicate Unescapes(expr: string) {
    !Contains(expr, DoubleEscaped)
  }

  /** standardize.go: the rewrite chain. */
  function Standardize(expr: string): (r: string)
    ensures |r| <= |expr|
  {
    var e := if Unescapes(expr) then ReplaceAll(Unescape(expr), Underscore) else expr;
    ReplaceAll(ReplaceAll(ReplaceAll(ReplaceAll(e, LowerRange), UpperRange), Digits), WordSet)
  }

  /** The contents of one class after the whole chain. */
  function CanonicalClass(span: string, unescapes: bool): (r: string) {
    var e := if unescapes then Rewrite(span, Underscore) else span;
    Rewrite(Rewrite(Rewrite(Rewrite(e, LowerRange), UpperRange), Digits), WordSet)
  }

  /** The contents of one class after the four moves, before the collapse. */
  function Reordered(span: string, unescapes: bool): (r: string) {
    var e := if unescapes then Rewrite(span, Underscore) else span;
    Rewrite(Rewrite(Rewrite(e, LowerRange), UpperRange), Digits)
  }

  function Steps(unescapes: bool): (ts: seq<Token>) {
    var head := if unescapes then [Underscore] else [];
    head + [LowerRange] + [UpperRange] + [Digits] + [WordSet]
  }

  /** The text the class substitutions of `Standardize` start from. */
  function Prepared(expr: string): (r: string) {
    if Unescapes(expr) then Unescape(expr) else expr
  }

  // ---------------------------------------------------------------------
  // Occurrences of tokens in slices and concatenations

  lemma AtSlice(s: string, k: nat, e: nat, i: nat, t: Token)
    requires k <= e <= |s|
    ensures At(s[k..e], i, t) <==> k + i + Width(t) <= e && At(s, k + i, t)
  {
    if t == WordSet && k + i + 10 <= e {
      var x := s[k..e];
      var y, z := x[i..i + 10], s[k + i..k + i + 10];
      forall j | 0 <= j < 10
        ensures y[j] == z[j]
      {
        assert y[j] == x[i + j] == s[k + i + j];
      }
      assert y == z;
    }
  }

  lemma AtAppendLeft(x: string, y: string, i: nat, t: Token)
    requires i + Width(t) <= |x|
    ensures At(x + y, i, t) <==> At(x, i, t)
  {
    if t == WordSet {
      assert (x + y)[i..i + 10] == x[i..i + 10];
    }
  }

  lemma AtAppendRight(x: string, y: string, i: nat, t: Token)
    ensures At(x + y, |x| + i, t) <==> At(y, i, t)
  {
    if t == WordSet && i + 10 <= |y| {
      assert (x + y)[|x| + i..|x| + i + 10] == y[i..i + 10];
    }
  }

  /** Occurrences of two different moved tokens never overlap. */
  lemma Apart(s: string, p: nat, t: Token, q: nat, u: Token)
    requires Moved(t) && Moved(u) && t != u && At(s, p, t) && At(s, q, u)
    ensures p + Width(t) <= q || q + Width(u) <= p
  {
  }

  /** The start of the rightmost occurrence is at least k when none starts below k. */
  lemma LastAtLeast(s: string, t: Token, k: nat)
    requires Occurs(s, t)
    requires forall i :: 0 <= i < k ==> !At(s, i, t)
    ensures Last(s, t).Some? && Last(s, t).value >= k
  {
    var i :| 0 <= i < |s| && At(s, i, t);
  }

  // ---------------------------------------------------------------------
  // One substitution inside one class

  /** Moving a token only permutes the class. */
  lemma RewritePermutes(s: string, t: Token)
    requires Moved(t)
    ensures |Rewrite(s, t)| == |s| && multiset(Rewrite(s, t)) == multiset(s)
  {
    match Last(s, t)
    case None =>
    case Some(p) =>
      var w := Width(t);
      var x, y, z := s[..p], s[p..p + w], s[p + w..];
      assert s == x + y + z;
      assert Rewrite(s, t) == y + x + z;
      assert multiset(y + x + z) == multiset(y) + multiset(x) + multiset(z);
  }

  /** Collapsing removes one occurrence of WordText and puts `\w` in front. */
  lemma RewriteCollapses(s: string)
    requires Occurs(s, WordSet)
    ensures exists p: nat ::
              && SubAt(s, WordText, p)
              && (forall i :: p < i < |s| ==> !At(s, i, WordSet))
              && Rewrite(s, WordSet) == WordClass + s[..p] + s[p + 10..]
  {
    LastAtLeast(s, WordSet, 0);
    var p := Last(s, WordSet).value;
    assert SubAt(s, WordText, p);
  }

  /** `]` never enters a class by a rewrite. */
  lemma RewriteNoClose(s: string, t: Token)
    requires ']' !in s
    ensures ']' !in Rewrite(s, t)
  {
    if Moved(t) {
      RewritePermutes(s, t);
      assert ']' !in multiset(s);
    } else if Last(s, t).Some? {
      var p := Last(s, t).value;
      assert ']' !in s[..p];
      assert ']' !in s[p + 10..];
      assert ']' !in WordClass;
    }
  }

  /** An occurrence in front of the moved token ends up w places further right. */
  lemma KeptBefore(s: string, p: nat, w: nat, q: nat, u: Token)
    requires p + w <= |s| && q + Width(u) <= p && At(s, q, u)
    ensures At(s[p..p + w] + s[..p] + s[p + w..], w + q, u)
  {
    assert s[0..p] == s[..p];
    AtSlice(s, 0, p, q, u);
    AtAppendRight(s[p..p + w], s[..p], q, u);
    AtAppendLeft(s[p..p + w] + s[..p], s[p + w..], w + q, u);
  }

  /** An occurrence behind the moved token stays where it was. */
  lemma KeptBehind(s: string, p: nat, w: nat, q: nat, u: Token)
    requires p + w <= q && At(s, q, u)
    ensures At(s[p..p + w] + s[..p] + s[p + w..], q, u)
  {
    assert s[p + w..|s|] == s[p + w..];
    AtSlice(s, p + w, |s|, q - p - w, u);
    AtAppendRight(s[p..p + w] + s[..p], s[p + w..], q - p - w, u);
  }

  /** A move does not destroy an occurrence of a different moved token. */
  lemma RewriteKeeps(s: string, t: Token, u: Token)
    requires Moved(t) && Moved(u) && t != u && Occurs(s, u)
    ensures Occurs(Rewrite(s, t), u)
  {
    var q :| 0 <= q < |s| && At(s, q, u);
    if Last(s, t).Some? {
      var q' := KeptAt(s, t, q, u);
      assert q' < |Rewrite(s, t)|;
    }
  }

  /** A move cuts the class at the token and puts the token first. */
  lemma MovedShape(s: string, t: Token)
    requires Moved(t) && Last(s, t).Some?
    ensures var p, w := Last(s, t).value, Width(t);
      Rewrite(s, t) == s[p..p + w] + s[..p] + s[p + w..]
  {
  }

  /** Where the occurrence at q ends up after the move of t. */
  lemma KeptAt(s: string, t: Token, q: nat, u: Token) returns (q': nat)
    requires Moved(t) && Moved(u) && t != u && At(s, q, u) && Last(s, t).Some?
    ensures At(Rewrite(s, t), q', u)
  {
    var p := Last(s, t).value;
    Apart(s, p, t, q, u);
    MovedShape(s, t);
    if q + Width(u) <= p {
      KeptBefore(s, p, Width(t), q, u);
      q' := Width(t) + q;
    } else {
      KeptBehind(s, p, Width(t), q, u);
      q' := q;
    }
  }

  // ---------------------------------------------------------------------
  // The scan

  /** A `[` followed by ']'-free text and a `]` opens a class closed by that `]`. */
  lemma ClassEndAt(u: string, v: string)
    requires u != [] && u[0] == '[' && ']' !in u && v != [] && v[0] == ']'
    ensures ClassEnd(u + v) == Some(|u|)
  {
    var w := u + v;
    assert w[|u|] == ']';
    assert forall k :: 0 <= k < |u| ==> w[k] == u[k];
  }

  /** Without a `]` after it, a `[` opens no class. */
  lemma ClassEndNone(s: string)
    requires ']' !in s
    ensures ClassEnd(s).None?
  {
  }

  lemma {:induction false} ReplaceAllNoClose(s: string, t: Token)
    requires ']' !in s
    ensures ReplaceAll(s, t) == s
    decreases |s|
  {
    if s != [] {
      ClassEndNone(s);
      assert ']' !in s[1..];
      ReplaceAllNoClose(s[1..], t);
      assert s == [s[0]] + s[1..];
    }
  }

  /** No occurrence in u means no occurrence in any suffix of u. */
  lemma NoneInSuffix(u: string, k: nat, t: Token)
    requires k <= |u| && Last(u, t).None?
    ensures Last(u[k..], t).None?
  {
    forall i | 0 <= i < |u| - k
      ensures !At(u[k..], i, t)
    {
      AtSlice(u, k, |u|, i, t);
    }
  }

  /** Inside a class that lacks t no match starts: the scan walks through it. */
  lemma {:induction false} ReplaceAllSkips(u: string, v: string, t: Token)
    requires ']' !in u && Last(u, t).None? && v != [] && v[0] == ']'
    ensures ReplaceAll(u + v, t) == u + ReplaceAll(v, t)
    decreases |u|
  {
    if u == [] {
      assert u + v == v;
      assert u + ReplaceAll(v, t) == ReplaceAll(v, t);
    } else {
      NoneInSuffix(u, 1, t);
      ReplaceAllSkips(u[1..], v, t);
      SkipStep(u, v, t);
    }
  }

  lemma SkipStep(u: string, v: string, t: Token)
    requires u != [] && ']' !in u && Last(u[1..], t).None? && v != [] && v[0] == ']'
    requires ReplaceAll(u[1..] + v, t) == u[1..] + ReplaceAll(v, t)
    ensures ReplaceAll(u + v, t) == u + ReplaceAll(v, t)
  {
    SkipHead(u, v, t);
    ScanPasses(u + v, t);
    Unconsed(u, v);
    Unconsed(u, ReplaceAll(v, t));
  }

  /** Where no match starts, the scan keeps the first character and moves on. */
  lemma ScanPasses(w: string, t: Token)
    requires w != [] && MatchAt(w, t).None?
    ensures ReplaceAll(w, t) == [w[0]] + ReplaceAll(w[1..], t)
  {
  }

  lemma Unconsed(u: string, v: string)
    requires u != []
    ensures (u + v)[0] == u[0] && (u + v)[1..] == u[1..] + v && u + v == [u[0]] + (u[1..] + v)
  {
  }

  lemma SkipHead(u: string, v: string, t: Token)
    requires u != [] && ']' !in u && Last(u[1..], t).None? && v != [] && v[0] == ']'
    ensures MatchAt(u + v, t).None?
  {
    if u[0] == '[' {
      ClassEndAt(u, v);
      assert (u + v)[1..|u|] == u[1..];
    }
  }

  /** `ReplaceAll` substitutes class by class: it agrees with the reference reading. */
  lemma {:induction false} ReplaceAllIsClasswise(s: string, t: Token)
    ensures ReplaceAll(s, t) == Classwise(s, [t])
    decreases |s|
  {
    if s != [] {
      match ClassEnd(s)
      case None =>
        ReplaceAllIsClasswise(s[1..], t);
        assert MatchAt(s, t).None?;
      case Some(e) =>
        ReplaceAllIsClasswise(s[e + 1..], t);
        RewriteAllOne(s[1..e], t);
        if Last(s[1..e], t).Some? {
          ClassMatched(s, e, t);
        } else {
          ClassSkipped(s, e, t);
        }
    }
  }

  lemma RewriteAllOne(span: string, t: Token)
    ensures RewriteAll(span, [t]) == Rewrite(span, t)
  {
    assert [t][..0] == [];
  }

  lemma ClassMatched(s: string, e: nat, t: Token)
    requires ClassEnd(s) == Some(e) && Last(s[1..e], t).Some?
    requires ReplaceAll(s[e + 1..], t) == Classwise(s[e + 1..], [t])
    requires RewriteAll(s[1..e], [t]) == Rewrite(s[1..e], t)
    ensures ReplaceAll(s, t) == Classwise(s, [t])
  {
    assert MatchAt(s, t) == Some(e);
  }

  lemma ClassSkipped(s: string, e: nat, t: Token)
    requires ClassEnd(s) == Some(e) && Last(s[1..e], t).None?
    requires ReplaceAll(s[e + 1..], t) == Classwise(s[e + 1..], [t])
    requires RewriteAll(s[1..e], [t]) == Rewrite(s[1..e], t)
    ensures ReplaceAll(s, t) == Classwise(s, [t])
  {
    var span, v := s[1..e], s[e..];
    var rest := ReplaceAll(s[e + 1..], t);
    assert s[1..] == span + v;
    ReplaceAllSkips(span, v, t);
    assert MatchAt(s, t).None?;
    ScanPasses(s, t);
    assert v[0] == ']' && ClassEnd(v).None? && v[1..] == s[e + 1..];
    ScanPasses(v, t);
    assert ReplaceAll(s, t) == [s[0]] + (span + ("]" + rest));
    Regrouped(s[0], span, rest);
    ClassShape(s, e, [t]);
  }

  lemma Regrouped(c: char, x: string, y: string)
    ensures [c] + (x + ("]" + y)) == [c] + x + "]" + y
  {
  }

  // ---------------------------------------------------------------------
  // Chains of substitutions, class by class

  lemma RewriteAllSnoc(span: string, ts: seq<Token>, t: Token)
    ensures RewriteAll(span, ts + [t]) == Rewrite(RewriteAll(span, ts), t)
  {
    assert (ts + [t])[..|ts|] == ts;
  }

  lemma {:induction false} RewriteAllNoClose(span: string, ts: seq<Token>)
    requires ']' !in span
    ensures ']' !in RewriteAll(span, ts)
    decreases |ts|
  {
    if ts != [] {
      RewriteAllNoClose(span, ts[..|ts| - 1]);
      RewriteNoClose(RewriteAll(span, ts[..|ts| - 1]), ts[|ts| - 1]);
    }
  }

  /** The parts of a bracket class written out: `[`, contents x, `]`, rest y. */
  lemma Bracketed(x: string, y: string)
    requires ']' !in x
    ensures ClassEnd("[" + x + "]" + y) == Some(|x| + 1)
    ensures ("[" + x + "]" + y)[1..|x| + 1] == x && ("[" + x + "]" + y)[|x| + 2..] == y
  {
    var w := "[" + x + "]" + y;
    assert w[0] == '[' && w[|x| + 1] == ']';
    assert forall k :: 1 <= k < |x| + 1 ==> w[k] == x[k - 1];
    assert FindClose(w, 1) == Some(|x| + 1);
  }

  /** The contents of the class that opens s hold no `]`. */
  lemma ClassFree(s: string, e: nat)
    requires ClassEnd(s) == Some(e)
    ensures 1 <= e < |s| && ']' !in s[1..e]
  {
  }

  /** A `[` that no `]` follows, or any other character, starts no class. */
  lemma PlainHead(s: string)
    requires s != [] && ClassEnd(s).None?
    ensures s[0] == '[' ==> ']' !in s[1..]
  {
    if s[0] == '[' {
      assert FindClose(s, 1).None?;
    }
  }

  lemma {:induction false} ClasswiseNoClose(s: string, ts: seq<Token>)
    requires ']' !in s
    ensures Classwise(s, ts) == s
    decreases |s|
  {
    if s != [] {
      ClassEndNone(s);
      ClasswiseNoClose(s[1..], ts);
      assert s == [s[0]] + s[1..];
    }
  }

  /** One more class-by-class pass adds its substitution to the end of the list. */
  lemma {:induction false} ClasswiseExtend(s: string, ts: seq<Token>, t: Token)
    ensures Classwise(Classwise(s, ts), [t]) == Classwise(s, ts + [t])
    decreases |s|
  {
    if s != [] {
      match ClassEnd(s)
      case Some(e) =>
        ClassFree(s, e);
        ClasswiseExtend(s[e + 1..], ts, t);
        ExtendClass(s, e, ts, t);
      case None =>
        ClasswiseExtend(s[1..], ts, t);
        ExtendPlain(s, ts, t);
    }
  }

  lemma ExtendClass(s: string, e: nat, ts: seq<Token>, t: Token)
    requires ClassEnd(s) == Some(e)
    requires Classwise(Classwise(s[e + 1..], ts), [t]) == Classwise(s[e + 1..], ts + [t])
    ensures Classwise(Classwise(s, ts), [t]) == Classwise(s, ts + [t])
  {
    ClassStays(s, e, ts);
    RewriteAllOne(RewriteAll(s[1..e], ts), t);
    RewriteAllSnoc(s[1..e], ts, t);
  }

  lemma ExtendPlain(s: string, ts: seq<Token>, t: Token)
    requires s != [] && ClassEnd(s).None?
    requires Classwise(Classwise(s[1..], ts), [t]) == Classwise(s[1..], ts + [t])
    ensures Classwise(Classwise(s, ts), [t]) == Classwise(s, ts + [t])
  {
    PlainStays(s, ts);
  }

  /** A class of s is a class of the pass's output, at its new length. */
  lemma ClassStays(s: string, e: nat, ts: seq<Token>)
    requires ClassEnd(s) == Some(e)
    ensures var x, c := RewriteAll(s[1..e], ts), Classwise(s, ts);
      ClassEnd(c) == Some(|x| + 1) && c[1..|x| + 1] == x && c[|x| + 2..] == Classwise(s[e + 1..], ts)
  {
    var x, y := RewriteAll(s[1..e], ts), Classwise(s[e + 1..], ts);
    ClassFree(s, e);
    RewriteAllNoClose(s[1..e], ts);
    Bracketed(x, y);
    ClassShape(s, e, ts);
  }

  lemma ClassShape(s: string, e: nat, ts: seq<Token>)
    requires ClassEnd(s) == Some(e)
    ensures Classwise(s, ts) == "[" + RewriteAll(s[1..e], ts) + "]" + Classwise(s[e + 1..], ts)
  {
  }

  /** A character of s outside any class is one of the pass's output too. */
  lemma PlainStays(s: string, ts: seq<Token>)
    requires s != [] && ClassEnd(s).None?
    ensures var c := Classwise(s, ts);
      c != [] && c[0] == s[0] && c[1..] == Classwise(s[1..], ts) && ClassEnd(c).None?
  {
    var c := Classwise(s, ts);
    PlainHead(s);
    if s[0] == '[' {
      ClasswiseNoClose(s[1..], ts);
      assert c == s;
    }
    assert c[0] == s[0] && c[1..] == Classwise(s[1..], ts);
  }

  /** `RewriteAll` over the chain's steps is `CanonicalClass`. */
  lemma CanonicalSteps(span: string, unescapes: bool)
    ensures RewriteAll(span, Steps(unescapes)) == CanonicalClass(span, unescapes)
  {
    var head: seq<Token> := if unescapes then [Underscore] else [];
    if unescapes {
      RewriteAllOne(span, Underscore);
    } else {
      assert RewriteAll(span, head) == span;
    }
    RewriteAllSnoc(span, head, LowerRange);
    RewriteAllSnoc(span, head + [LowerRange], UpperRange);
    RewriteAllSnoc(span, head + [LowerRange] + [UpperRange], Digits);
    RewriteAllSnoc(span, head + [LowerRange] + [UpperRange] + [Digits], WordSet);
  }

  /** One more substitution of the chain, read class by class. */
  lemma ChainStep(p: string, ts: seq<Token>, x: string, t: Token)
    requires x == Classwise(p, ts)
    ensures ReplaceAll(x, t) == Classwise(p, ts + [t])
  {
    ReplaceAllIsClasswise(x, t);
    ClasswiseExtend(p, ts, t);
  }

  /**
   * The whole chain works class by class: `Standardize` is the text it
   * starts from with every class run through the steps on its own.
   */
  lemma StandardizeIsClasswise(expr: string)
    ensures Standardize(expr) == Classwise(Prepared(expr), Steps(Unescapes(expr)))
  {
    var p := Prepared(expr);
    var head: seq<Token> := if Unescapes(expr) then [Underscore] else [];
    var e := if Unescapes(expr) then ReplaceAll(p, Underscore) else p;
    if Unescapes(expr) {
      ClasswiseNoSteps(p);
      ChainStep(p, [], p, Underscore);
      assert [] + [Underscore] == head;
    } else {
      ClasswiseNoSteps(p);
    }
    assert e == Classwise(p, head);
    var e1 := ReplaceAll(e, LowerRange);
    ChainStep(p, head, e, LowerRange);
    var e2 := ReplaceAll(e1, UpperRange);
    ChainStep(p, head + [LowerRange], e1, UpperRange);
    var e3 := ReplaceAll(e2, Digits);
    ChainStep(p, head + [LowerRange] + [UpperRange], e2, Digits);
    ChainStep(p, head + [LowerRange] + [UpperRange] + [Digits], e3, WordSet);
  }

  /** With no substitutions a class-by-class pass changes nothing. */
  lemma {:induction false} ClasswiseNoSteps(s: string)
    ensures Classwise(s, []) == s
    decreases |s|
  {
    if s != [] {
      match ClassEnd(s)
      case Some(e) =>
        ClasswiseNoSteps(s[e + 1..]);
        BracketParts(s, e);
      case None =>
        ClasswiseNoSteps(s[1..]);
        assert s == [s[0]] + s[1..];
    }
  }

  // ---------------------------------------------------------------------
  // What a pass keeps

  /** Moves only permute a class. */
  lemma {:induction false} RewriteAllPermutes(span: string, ts: seq<Token>)
    requires forall i :: 0 <= i < |ts| ==> Moved(ts[i])
    ensures |RewriteAll(span, ts)| == |span| && multiset(RewriteAll(span, ts)) == multiset(span)
    decreases |ts|
  {
    if ts != [] {
      RewriteAllPermutes(span, ts[..|ts| - 1]);
      RewritePermutes(RewriteAll(span, ts[..|ts| - 1]), ts[|ts| - 1]);
    }
  }

  /** A pass of moves only permutes characters inside classes. */
  lemma {:induction false} ClasswisePermutes(s: string, ts: seq<Token>)
    requires forall i :: 0 <= i < |ts| ==> Moved(ts[i])
    ensures |Classwise(s, ts)| == |s| && multiset(Classwise(s, ts)) == multiset(s)
    decreases |s|
  {
    if s != [] {
      match ClassEnd(s)
      case Some(e) =>
        ClasswisePermutes(s[e + 1..], ts);
        RewriteAllPermutes(s[1..e], ts);
        ClassShape(s, e, ts);
        BracketParts(s, e);
        PermutedBracket(s[1..e], RewriteAll(s[1..e], ts), s[e + 1..], Classwise(s[e + 1..], ts));
      case None =>
        ClasswisePermutes(s[1..], ts);
        assert s == [s[0]] + s[1..];
    }
  }

  lemma BracketParts(s: string, e: nat)
    requires ClassEnd(s) == Some(e)
    ensures s == "[" + s[1..e] + "]" + s[e + 1..]
  {
  }

  lemma PermutedBracket(x: string, x': string, y: string, y': string)
    requires |x'| == |x| && multiset(x') == multiset(x)
    requires |y'| == |y| && multiset(y') == multiset(y)
    ensures |"[" + x' + "]" + y'| == |"[" + x + "]" + y|
    ensures multiset("[" + x' + "]" + y') == multiset("[" + x + "]" + y)
  {
  }

  /** Each of the four moving substitutions keeps the length and the characters. */
  lemma ReplaceAllPermutes(s: string, t: Token)
    requires Moved(t)
    ensures |ReplaceAll(s, t)| == |s| && multiset(ReplaceAll(s, t)) == multiset(s)
  {
    ReplaceAllIsClasswise(s, t);
    ClasswisePermutes(s, [t]);
  }

  /** A pass leaves the text outside classes as it is. */
  lemma {:induction false} ClasswiseOutline(s: string, ts: seq<Token>)
    ensures Outline(Classwise(s, ts)) == Outline(s)
    decreases |s|
  {
    if s != [] {
      match ClassEnd(s)
      case Some(e) =>
        ClasswiseOutline(s[e + 1..], ts);
        OutlineClass(s, e, ts);
      case None =>
        ClasswiseOutline(s[1..], ts);
        OutlinePlain(s, ts);
    }
  }

  lemma OutlineClass(s: string, e: nat, ts: seq<Token>)
    requires ClassEnd(s) == Some(e)
    requires Outline(Classwise(s[e + 1..], ts)) == Outline(s[e + 1..])
    ensures Outline(Classwise(s, ts)) == Outline(s)
  {
    var c := Classwise(s, ts);
    ClassStays(s, e, ts);
    var x := RewriteAll(s[1..e], ts);
    assert Outline(c) == "[]" + Outline(c[|x| + 2..]);
  }

  lemma OutlinePlain(s: string, ts: seq<Token>)
    requires s != [] && ClassEnd(s).None?
    requires Outline(Classwise(s[1..], ts)) == Outline(s[1..])
    ensures Outline(Classwise(s, ts)) == Outline(s)
  {
    var c := Classwise(s, ts);
    PlainStays(s, ts);
    assert Outline(c) == [c[0]] + Outline(c[1..]);
  }

  /** A pass rewrites the i-th class on its own, and makes no class. */
  lemma {:induction false} ClasswiseClasses(s: string, ts: seq<Token>)
    ensures |Classes(Classwise(s, ts))| == |Classes(s)|
    ensures forall i :: 0 <= i < |Classes(s)| ==> Classes(Classwise(s, ts))[i] == RewriteAll(Classes(s)[i], ts)
    decreases |s|
  {
    if s != [] {
      match ClassEnd(s)
      case Some(e) =>
        ClasswiseClasses(s[e + 1..], ts);
        ClassesClass(s, e, ts);
      case None =>
        ClasswiseClasses(s[1..], ts);
        ClassesPlain(s, ts);
    }
  }

  /** Each class of the output is its input class rewritten. */
  ghost predicate ClassesMapped(c: string, s: string, ts: seq<Token>) {
    |Classes(c)| == |Classes(s)| &&
    forall i :: 0 <= i < |Classes(s)| ==> Classes(c)[i] == RewriteAll(Classes(s)[i], ts)
  }

  lemma ClassesClass(s: string, e: nat, ts: seq<Token>)
    requires ClassEnd(s) == Some(e)
    requires ClassesMapped(Classwise(s[e + 1..], ts), s[e + 1..], ts)
    ensures ClassesMapped(Classwise(s, ts), s, ts)
  {
    var c, x := Classwise(s, ts), RewriteAll(s[1..e], ts);
    ClassStays(s, e, ts);
    ClassesCons(c, |x| + 1);
    ClassesCons(s, e);
    MappedCons(x, Classes(Classwise(s[e + 1..], ts)), s[1..e], Classes(s[e + 1..]), ts);
  }

  lemma MappedCons(x: string, a: seq<string>, y: string, b: seq<string>, ts: seq<Token>)
    requires x == RewriteAll(y, ts) && |a| == |b|
    requires forall i :: 0 <= i < |b| ==> a[i] == RewriteAll(b[i], ts)
    ensures |[x] + a| == |[y] + b|
    ensures forall i :: 0 <= i < |[y] + b| ==> ([x] + a)[i] == RewriteAll(([y] + b)[i], ts)
  {
    var p, q := [x] + a, [y] + b;
    forall i | 0 <= i < |q|
      ensures p[i] == RewriteAll(q[i], ts)
    {
      if i == 0 {
        assert p[0] == x && q[0] == y;
      } else {
        assert p[i] == a[i - 1] && q[i] == b[i - 1];
      }
    }
  }

  lemma ClassesCons(s: string, e: nat)
    requires ClassEnd(s) == Some(e)
    ensures Classes(s) == [s[1..e]] + Classes(s[e + 1..])
  {
  }

  lemma ClassesPlain(s: string, ts: seq<Token>)
    requires s != [] && ClassEnd(s).None?
    requires ClassesMapped(Classwise(s[1..], ts), s[1..], ts)
    ensures ClassesMapped(Classwise(s, ts), s, ts)
  {
    var c := Classwise(s, ts);
    PlainStays(s, ts);
    assert Classes(c) == Classes(c[1..]);
  }

  /** Text outside classes: `Standardize` keeps it. */
  lemma StandardizeOutline(expr: string)
    ensures Outline(Standardize(expr)) == Outline(Prepared(expr))
  {
    StandardizeIsClasswise(expr);
    ClasswiseOutline(Prepared(expr), Steps(Unescapes(expr)));
  }

  /** Classes: `Standardize` turns the i-th one into its canonical form. */
  lemma StandardizeClasses(expr: string)
    ensures |Classes(Standardize(expr))| == |Classes(Prepared(expr))|
    ensures forall i :: 0 <= i < |Classes(Prepared(expr))| ==>
      Classes(Standardize(expr))[i] == CanonicalClass(Classes(Prepared(expr))[i], Unescapes(expr))
  {
    var p, u := Prepared(expr), Unescapes(expr);
    StandardizeIsClasswise(expr);
    ClasswiseClasses(p, Steps(u));
    forall i | 0 <= i < |Classes(p)|
      ensures RewriteAll(Classes(p)[i], Steps(u)) == CanonicalClass(Classes(p)[i], u)
    {
      CanonicalSteps(Classes(p)[i], u);
    }
  }

  // ---------------------------------------------------------------------
  // Un-escaping

  /** `\_` at index i. */
  predicate EscapeAt(s: string, i: nat) {
    i + 1 < |s| && s[i] == '\\' && s[i + 1] == '_'
  }

  /** `\\_` at index i. */
  predicate DoubleEscapeAt(s: string, i: nat) {
    i + 2 < |s| && s[i] == '\\' && EscapeAt(s, i + 1)
  }

  lemma ContainsEscaped(s: string)
    ensures Contains(s, Escaped) <==> exists i: nat :: EscapeAt(s, i)
  {
    if Contains(s, Escaped) {
      var i :| 0 <= i <= |s| && SubAt(s, Escaped, i);
      assert s[i..i + 2][0] == s[i] && s[i..i + 2][1] == s[i + 1];
      assert EscapeAt(s, i);
    }
    if i: nat :| EscapeAt(s, i) {
      assert s[i..i + 2] == Escaped;
      assert SubAt(s, Escaped, i);
    }
  }

  lemma ContainsDoubleEscaped(s: string)
    ensures Contains(s, DoubleEscaped) <==> exists i: nat :: DoubleEscapeAt(s, i)
  {
    if Contains(s, DoubleEscaped) {
      var i :| 0 <= i <= |s| && SubAt(s, DoubleEscaped, i);
      assert s[i..i + 3][0] == s[i] && s[i..i + 3][1] == s[i + 1] && s[i..i + 3][2] == s[i + 2];
      assert DoubleEscapeAt(s, i);
    }
    if i: nat :| DoubleEscapeAt(s, i) {
      assert s[i..i + 3] == DoubleEscaped;
      assert SubAt(s, DoubleEscaped, i);
    }
  }

  /** Without `\_` un-escaping changes nothing. */
  lemma {:induction false} UnescapeClean(s: string)
    requires forall i: nat :: !EscapeAt(s, i)
    ensures Unescape(s) == s
    decreases |s|
  {
    if s != [] {
      assert !EscapeAt(s, 0);
      forall i: nat
        ensures !EscapeAt(s[1..], i)
      {
        assert !EscapeAt(s, i + 1);
      }
      UnescapeClean(s[1..]);
      assert s == [s[0]] + s[1..];
    }
  }

  /** Un-escaping works piecewise when no `\_` straddles the cut. */
  lemma {:induction false} UnescapeAppend(a: string, b: string)
    requires !(a != [] && a[|a| - 1] == '\\' && b != [] && b[0] == '_')
    ensures Unescape(a + b) == Unescape(a) + Unescape(b)
    decreases |a|
  {
    if a == [] {
      assert a + b == b;
    } else if EscapeAt(a, 0) {
      UnescapeAppend(a[2..], b);
      UnescapePair(a, b);
    } else {
      UnescapeAppend(a[1..], b);
      UnescapeSingle(a, b);
    }
  }

  lemma UnescapePair(a: string, b: string)
    requires EscapeAt(a, 0)
    requires Unescape(a[2..] + b) == Unescape(a[2..]) + Unescape(b)
    ensures Unescape(a + b) == Unescape(a) + Unescape(b)
  {
    var w := a + b;
    assert EscapeAt(w, 0) && w[2..] == a[2..] + b;
    UnescapeEscapeHead(w);
    UnescapeEscapeHead(a);
    Regroup("_", Unescape(a[2..]), Unescape(b));
  }

  lemma UnescapeEscapeHead(w: string)
    requires EscapeAt(w, 0)
    ensures Unescape(w) == "_" + Unescape(w[2..])
  {
  }

  lemma UnescapeSingle(a: string, b: string)
    requires a != [] && !EscapeAt(a, 0)
    requires !(a[|a| - 1] == '\\' && b != [] && b[0] == '_')
    requires Unescape(a[1..] + b) == Unescape(a[1..]) + Unescape(b)
    ensures Unescape(a + b) == Unescape(a) + Unescape(b)
  {
    NoEscapeAcross(a, b);
    UnescapeHeadAppend(a, b);
    UnescapeHead(a);
    Regroup([a[0]], Unescape(a[1..]), Unescape(b));
  }

  lemma UnescapeHeadAppend(a: string, b: string)
    requires a != [] && !EscapeAt(a + b, 0)
    ensures Unescape(a + b) == [a[0]] + Unescape(a[1..] + b)
  {
    var w := a + b;
    assert w[0] == a[0] && w[1..] == a[1..] + b;
    UnescapeHead(w);
  }

  lemma NoEscapeAcross(a: string, b: string)
    requires a != [] && !EscapeAt(a, 0)
    requires !(a[|a| - 1] == '\\' && b != [] && b[0] == '_')
    ensures !EscapeAt(a + b, 0)
  {
    if |a| == 1 {
      assert (a + b)[0] == a[0];
      assert b != [] ==> (a + b)[1] == b[0];
    } else {
      assert (a + b)[0] == a[0] && (a + b)[1] == a[1];
    }
  }

  lemma UnescapeHead(w: string)
    requires w != [] && !EscapeAt(w, 0)
    ensures Unescape(w) == [w[0]] + Unescape(w[1..])
  {
  }

  lemma Regroup(x: string, y: string, z: string)
    ensures x + (y + z) == x + y + z
  {
  }

  /** Every `\_` becomes `_`, wherever it stands. */
  lemma UnescapeSplit(a: string, b: string)
    ensures Unescape(a + Escaped + b) == Unescape(a) + "_" + Unescape(b)
  {
    var w := Escaped + b;
    assert a + Escaped + b == a + w;
    assert w[0] == '\\' && w[1] == '_' && w[2..] == b;
    UnescapeAppend(a, w);
    UnescapeEscapeHead(w);
  }

  /**
   * Un-escaping a text without `\\_` leaves no `\_` behind; the output
   * starts with `_` only where the input starts with `_` or `\_`.
   */
  lemma {:induction false} UnescapeLeavesNone(s: string)
    requires forall i: nat :: !DoubleEscapeAt(s, i)
    ensures forall i: nat :: !EscapeAt(Unescape(s), i)
    ensures Unescape(s) != [] && Unescape(s)[0] == '_' ==> s[0] == '_' || EscapeAt(s, 0)
    decreases |s|
  {
    if s == [] {
    } else if EscapeAt(s, 0) {
      NoDoubleInSuffix(s, 2);
      UnescapeLeavesNone(s[2..]);
      ShiftedEscapes("_", Unescape(s[2..]));
    } else {
      NoDoubleInSuffix(s, 1);
      UnescapeLeavesNone(s[1..]);
      assert !DoubleEscapeAt(s, 0);
      ShiftedEscapes([s[0]], Unescape(s[1..]));
    }
  }

  lemma NoDoubleInSuffix(s: string, k: nat)
    requires k <= |s| && forall i: nat :: !DoubleEscapeAt(s, i)
    ensures forall i: nat :: !DoubleEscapeAt(s[k..], i)
  {
    forall i: nat
      ensures !DoubleEscapeAt(s[k..], i)
    {
      assert !DoubleEscapeAt(s, k + i);
    }
  }

  /** A one-character head adds no `\_` unless it is `\` before `_`. */
  lemma ShiftedEscapes(c: string, r: string)
    requires |c| == 1 && forall i: nat :: !EscapeAt(r, i)
    requires !(c[0] == '\\' && r != [] && r[0] == '_')
    ensures forall i: nat :: !EscapeAt(c + r, i)
  {
    forall i: nat
      ensures !EscapeAt(c + r, i)
    {
      if i > 0 {
        assert !EscapeAt(r, i - 1);
      }
    }
  }

  /** The un-escaping step of `Standardize` removes every `\_`. */
  lemma UnescapeComplete(expr: string)
    requires Unescapes(expr)
    ensures !Contains(Prepared(expr), Escaped)
  {
    ContainsDoubleEscaped(expr);
    UnescapeLeavesNone(expr);
    ContainsEscaped(Unescape(expr));
  }

  /** With a `\\_` in the pattern nothing is un-escaped and `_` is not moved. */
  lemma DoubleEscapeKept(expr: string)
    requires Contains(expr, DoubleEscaped)
    ensures Standardize(expr) == Classwise(expr, [LowerRange, UpperRange, Digits, WordSet])
  {
    assert !Unescapes(expr);
    assert Prepared(expr) == expr;
    var ts := Steps(false);
    assert ts == [LowerRange, UpperRange, Digits, WordSet];
    StandardizeIsClasswise(expr);
  }

  // ---------------------------------------------------------------------
  // Patterns `Standardize` leaves alone

  /** A class in which none of the five tokens occurs. */
  ghost predicate Plain(span: string) {
    forall t :: !Occurs(span, t)
  }

  lemma {:induction false} RewriteAllPlain(span: string, ts: seq<Token>)
    requires Plain(span)
    ensures RewriteAll(span, ts) == span
    decreases |ts|
  {
    if ts != [] {
      RewriteAllPlain(span, ts[..|ts| - 1]);
      assert !Occurs(span, ts[|ts| - 1]);
    }
  }

  /** A pass that changes no class of s changes nothing. */
  lemma {:induction false} ClasswiseFixes(s: string, ts: seq<Token>)
    requires forall i :: 0 <= i < |Classes(s)| ==> Plain(Classes(s)[i])
    ensures Classwise(s, ts) == s
    decreases |s|
  {
    if s != [] {
      match ClassEnd(s)
      case Some(e) =>
        var cs := Classes(s[e + 1..]);
        assert Classes(s) == [s[1..e]] + cs;
        assert Plain(Classes(s)[0]);
        forall i | 0 <= i < |cs|
          ensures Plain(cs[i])
        {
          assert cs[i] == Classes(s)[i + 1];
        }
        ClasswiseFixes(s[e + 1..], ts);
        RewriteAllPlain(s[1..e], ts);
        ClassShape(s, e, ts);
        BracketParts(s, e);
      case None =>
        assert Classes(s) == Classes(s[1..]);
        ClasswiseFixes(s[1..], ts);
        assert s == [s[0]] + s[1..];
    }
  }

  /**
   * A pattern without `\_` whose classes hold none of the tokens comes back
   * unchanged; the empty pattern and one without any `[` are such patterns.
   */
  lemma StandardizeUnchanged(expr: string)
    requires !Contains(expr, Escaped)
    requires forall i :: 0 <= i < |Classes(expr)| ==> Plain(Classes(expr)[i])
    ensures Standardize(expr) == expr
  {
    ContainsEscaped(expr);
    UnescapeClean(expr);
    StandardizeIsClasswise(expr);
    ClasswiseFixes(expr, Steps(Unescapes(expr)));
  }

  lemma {:induction false} NoOpenNoClasses(s: string)
    requires '[' !in s
    ensures Classes(s) == []
    decreases |s|
  {
    if s != [] {
      NoOpenNoClasses(s[1..]);
    }
  }

  // ---------------------------------------------------------------------
  // The order of a canonical class

  /** No other moved token starts inside an occurrence of u. */
  lemma Covered(s: string, q: nat, u: Token, t: Token)
    requires Moved(t) && Moved(u) && t != u && At(s, q, u)
    ensures forall i :: q <= i < q + Width(u) ==> !At(s, i, t)
  {
  }

  /**
   * When no occurrence of t starts below k, the move brings the rightmost
   * one, found at or after k, to the front.
   */
  lemma Fronted(s: string, t: Token, k: nat)
    requires Moved(t) && Occurs(s, t)
    requires forall i :: 0 <= i < k ==> !At(s, i, t)
    ensures Last(s, t).Some? && Last(s, t).value >= k && At(Rewrite(s, t), 0, t)
  {
    LastAtLeast(s, t, k);
    var p, w := Last(s, t).value, Width(t);
    AtSlice(s, p, p + w, 0, t);
    AtAppendLeft(s[p..p + w], s[..p], 0, t);
    AtAppendLeft(s[p..p + w] + s[..p], s[p + w..], 0, t);
  }

  /** The lower-case step: `a-?` to the front, in front of a leading `_` if flagged. */
  lemma StepLower(e: string, b: bool)
    requires Occurs(e, LowerRange) && Occurs(e, UpperRange) && Occurs(e, Digits)
    requires b ==> At(e, 0, Underscore)
    ensures var r := Rewrite(e, LowerRange);
      At(r, 0, LowerRange) && (b ==> At(r, 3, Underscore)) && Occurs(r, UpperRange) && Occurs(r, Digits)
  {
    var k := if b then 1 else 0;
    if b {
      Covered(e, 0, Underscore, LowerRange);
    }
    Fronted(e, LowerRange, k);
    if b {
      KeptBefore(e, Last(e, LowerRange).value, 3, 0, Underscore);
    }
    RewriteKeeps(e, LowerRange, UpperRange);
    RewriteKeeps(e, LowerRange, Digits);
  }

  /** The upper-case step: `A-?` to the front, the lower range and `_` behind it. */
  lemma StepUpper(e: string, b: bool)
    requires At(e, 0, LowerRange) && Occurs(e, UpperRange) && Occurs(e, Digits)
    requires b ==> At(e, 3, Underscore)
    ensures var r := Rewrite(e, UpperRange);
      At(r, 0, UpperRange) && At(r, 3, LowerRange) && (b ==> At(r, 6, Underscore)) && Occurs(r, Digits)
  {
    var k := if b then 4 else 3;
    Covered(e, 0, LowerRange, UpperRange);
    if b {
      Covered(e, 3, Underscore, UpperRange);
    }
    Fronted(e, UpperRange, k);
    var p := Last(e, UpperRange).value;
    KeptBefore(e, p, 3, 0, LowerRange);
    if b {
      KeptBefore(e, p, 3, 3, Underscore);
    }
    RewriteKeeps(e, UpperRange, Digits);
  }

  /** The digits step: `0-9` to the front, the two ranges and `_` behind it. */
  lemma StepDigits(e: string, b: bool)
    requires At(e, 0, UpperRange) && At(e, 3, LowerRange) && Occurs(e, Digits)
    requires b ==> At(e, 6, Underscore)
    ensures var r := Rewrite(e, Digits);
      At(r, 0, Digits) && At(r, 3, UpperRange) && At(r, 6, LowerRange) && (b ==> At(r, 9, Underscore))
  {
    var k := if b then 7 else 6;
    Covered(e, 0, UpperRange, Digits);
    Covered(e, 3, LowerRange, Digits);
    if b {
      Covered(e, 6, Underscore, Digits);
    }
    Fronted(e, Digits, k);
    var p := Last(e, Digits).value;
    KeptBefore(e, p, 3, 0, UpperRange);
    KeptBefore(e, p, 3, 3, LowerRange);
    if b {
      KeptBefore(e, p, 3, 6, Underscore);
    }
  }

  /**
   * A class holding digits, an upper-case and a lower-case range is
   * reordered to start with `0-9`, then `A-?`, then `a-?`, then `_` when the
   * underscore step runs and the class holds one.
   */
  lemma ClassOrder(span: string, unescapes: bool)
    requires Occurs(span, Digits) && Occurs(span, UpperRange) && Occurs(span, LowerRange)
    ensures var r := Reordered(span, unescapes);
      At(r, 0, Digits) && At(r, 3, UpperRange) && At(r, 6, LowerRange)
    ensures unescapes && Occurs(span, Underscore) ==> At(Reordered(span, unescapes), 9, Underscore)
  {
    var b := unescapes && Occurs(span, Underscore);
    var e := if unescapes then Rewrite(span, Underscore) else span;
    if unescapes {
      RewriteKeeps(span, Underscore, LowerRange);
      RewriteKeeps(span, Underscore, UpperRange);
      RewriteKeeps(span, Underscore, Digits);
    }
    if b {
      Fronted(span, Underscore, 0);
    }
    StepLower(e, b);
    StepUpper(Rewrite(e, LowerRange), b);
    StepDigits(Rewrite(Rewrite(e, LowerRange), UpperRange), b);
  }

  /** The moves of the chain permute the class. */
  lemma ReorderedPermutes(span: string, unescapes: bool)
    ensures |Reordered(span, unescapes)| == |span|
    ensures multiset(Reordered(span, unescapes)) == multiset(span)
  {
    var e := if unescapes then Rewrite(span, Underscore) else span;
    RewritePermutes(span, Underscore);
    RewritePermutes(e, LowerRange);
    RewritePermutes(Rewrite(e, LowerRange), UpperRange);
    RewritePermutes(Rewrite(Rewrite(e, LowerRange), UpperRange), Digits);
  }

  /**
   * A reordered class holding `0-9A-Za-z_` has one such run replaced by `\w`
   * at its front, the rest of its characters following.
   */
  lemma ClassCollapses(span: string, unescapes: bool)
    requires Occurs(Reordered(span, unescapes), WordSet)
    ensures var c := CanonicalClass(span, unescapes);
      |c| >= 2 && c[..2] == WordClass && multiset(c[2..]) + multiset(WordText) == multiset(span)
  {
    var r := Reordered(span, unescapes);
    ReorderedPermutes(span, unescapes);
    LastAtLeast(r, WordSet, 0);
    var p := Last(r, WordSet).value;
    assert Rewrite(r, WordSet) == WordClass + r[..p] + r[p + 10..];
    CutOut(r, p);
    HeadTail(WordClass, r[..p], r[p + 10..]);
  }

  /** Removing the run at p leaves the other characters of r. */
  lemma CutOut(r: string, p: nat)
    requires At(r, p, WordSet)
    ensures multiset(r[..p] + r[p + 10..]) + multiset(WordText) == multiset(r)
  {
    assert r == r[..p] + r[p..p + 10] + r[p + 10..];
  }

  lemma HeadTail(a: string, b: string, c: string)
    ensures (a + b + c)[..|a|] == a && (a + b + c)[|a|..] == b + c
  {
  }

  /**
   * A class holding `0-9`, `A-Z`, `a-z` and `_`, all as the ranges the chain
   * moves last, reorders to start with `0-9A-Za-z_`, so it collapses.
   */
  lemma FullClassCollapses(span: string)
    requires Occurs(span, Digits) && Occurs(span, UpperRange) && Occurs(span, LowerRange)
    requires Occurs(span, Underscore)
    requires var r := Reordered(span, true); |r| > 8 && r[5] == 'Z' && r[8] == 'z'
    ensures SubAt(Reordered(span, true), WordText, 0)
    ensures Occurs(Reordered(span, true), WordSet)
  {
    ClassOrder(span, true);
    WordAtFront(Reordered(span, true));
  }

  lemma WordAtFront(r: string)
    requires At(r, 0, Digits) && At(r, 3, UpperRange) && At(r, 6, LowerRange) && At(r, 9, Underscore)
    requires r[5] == 'Z' && r[8] == 'z'
    ensures SubAt(r, WordText, 0) && At(r, 0, WordSet)
  {
    assert r[0..10] == WordText;
  }

  /** A class lacking a character of `0-9A-Za-z_` is reordered, not collapsed. */
  lemma NoCollapse(span: string, unescapes: bool, c: char)
    requires c in WordText && c !in span
    ensures CanonicalClass(span, unescapes) == Reordered(span, unescapes)
    ensures multiset(CanonicalClass(span, unescapes)) == multiset(span)
  {
    var r := Reordered(span, unescapes);
    ReorderedPermutes(span, unescapes);
    assert c !in multiset(r);
    Lacking(r, c);
  }

  lemma Lacking(r: string, c: char)
    requires c in WordText && c !in r
    ensures Last(r, WordSet).None?
  {
  }
}
