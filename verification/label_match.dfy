/**
 * The fragment of Python's `re.search` that the bill-field patterns use.
 * Every pattern has the shape
 *
 *     Label \s* ( Class+ ) Tail
 *
 * where Label is fixed text, Class is `[^\n]` or `[\d,\.]`, and Tail is
 * nothing, fixed text, or `\s*` followed by fixed text. The declarative
 * semantics below says which matches exist and which one Python's
 * backtracking engine reports: the leftmost start position, and there the
 * match whose greedy quantifiers are as long as possible, tried from the
 * first quantifier on. The functions after it compute that match by
 * backtracking and are proved to return exactly it.
 */
module LabelMatch {
  import opened Wrappers

  /** `\s` in a `str` pattern: the characters for which `str.isspace()` holds. */
  predicate IsSpace(c: char)
  {
    var n := c as int;
    (9 <= n <= 13) || (28 <= n <= 32) || n == 0x85 || n == 0xA0 || n == 0x1680
    || (0x2000 <= n <= 0x200A) || n == 0x2028 || n == 0x2029 || n == 0x202F
    || n == 0x205F || n == 0x3000
  }

  /** The two character classes the patterns capture: `[^\n]` and `[\d,\.]`. */
  datatype CharClass = NotNewline | Numeric

  predicate InClass(c: char, cls: CharClass)
  {
    match cls
    case NotNewline => c != '\n'
    case Numeric => ('0' <= c <= '9') || c == ',' || c == '.'
  }

  /** What follows the captured group: nothing, fixed text, or `\s*` then fixed text. */
  datatype Tail = NoTail | Literal(lit: string) | SpacedLiteral(lit: string)
  {
    function Text(): string
    {
      match this
      case NoTail => ""
      case Literal(l) => l
      case SpacedLiteral(l) => l
    }
  }

  /** `Label\s*(Class+)Tail`. */
  datatype Pattern = Pattern(labelText: string, cls: CharClass, tail: Tail)

  /** The fixed text `lit` occurs in `s` at position `pos`. */
  predicate LiteralAt(s: string, pos: nat, lit: string)
  {
    pos + |lit| <= |s| && s[pos..pos + |lit|] == lit
  }

  ghost predicate SpacesBetween(s: string, lo: nat, hi: nat)
  {
    lo <= hi <= |s| && forall q :: lo <= q < hi ==> IsSpace(s[q])
  }

  ghost predicate ClassBetween(s: string, lo: nat, hi: nat, cls: CharClass)
  {
    lo <= hi <= |s| && forall q :: lo <= q < hi ==> InClass(s[q], cls)
  }

  // ---------------------------------------------------------------------
  // Declarative semantics

  /** The tail matches from the end `b` of the group, its fixed text starting at `c`. */
  ghost predicate TailMatches(s: string, t: Tail, b: nat, c: nat)
  {
    SpacesBetween(s, b, c) && (c == b || t.SpacedLiteral?) && LiteralAt(s, c, t.Text())
  }

  /** The group `s[a..b]` and the tail from `b` match. */
  ghost predicate GroupMatches(s: string, p: Pattern, a: nat, b: nat, c: nat)
  {
    a < b && ClassBetween(s, a, b, p.cls) && TailMatches(s, p.tail, b, c)
  }

  /** The whole pattern matches at start `i` with group `s[a..b]` and tail text at `c`. */
  ghost predicate MatchesWith(s: string, p: Pattern, i: nat, a: nat, b: nat, c: nat)
  {
    LiteralAt(s, i, p.labelText) && SpacesBetween(s, i + |p.labelText|, a) && GroupMatches(s, p, a, b, c)
  }

  ghost predicate MatchesAt(s: string, p: Pattern, i: nat)
  {
    exists a: nat, b: nat, c: nat :: MatchesWith(s, p, i, a, b, c)
  }

  /** Lexicographic order on the three quantifier end positions. */
  ghost predicate NotAfter(a': nat, b': nat, c': nat, a: nat, b: nat, c: nat)
  {
    a' < a || (a' == a && (b' < b || (b' == b && c' <= c)))
  }

  /**
   * The match the engine reports at start `i`: greedy quantifiers try their
   * longest run first and back off one character at a time, the leading `\s*`
   * outermost, so the first success has the greatest (a, b, c).
   */
  ghost predicate PreferredAt(s: string, p: Pattern, i: nat, a: nat, b: nat, c: nat)
  {
    MatchesWith(s, p, i, a, b, c)
    && forall a': nat, b': nat, c': nat :: MatchesWith(s, p, i, a', b', c') ==> NotAfter(a', b', c', a, b, c)
  }

  /** `re.search(p, s).group(1) == g`: the preferred match at the leftmost start that matches. */
  ghost predicate SearchFinds(s: string, p: Pattern, g: string)
  {
    exists i: nat, a: nat, b: nat, c: nat ::
      PreferredAt(s, p, i, a, b, c)
      && (forall i': nat :: i' < i ==> !MatchesAt(s, p, i'))
      && g == s[a..b]
  }

  // ---------------------------------------------------------------------
  // The backtracking matcher

  /** End of the longest run of `\s` characters starting at `q`. */
  function SpaceEnd(s: string, q: nat): (e: nat)
    requires q <= |s|
    ensures SpacesBetween(s, q, e)
    ensures e < |s| ==> !IsSpace(s[e])
    decreases |s| - q
  {
    if q < |s| && IsSpace(s[q]) then SpaceEnd(s, q + 1) else q
  }

  /** End of the longest run of class characters starting at `q`. */
  function ClassEnd(s: string, q: nat, cls: CharClass): (e: nat)
    requires q <= |s|
    ensures ClassBetween(s, q, e, cls)
    ensures e < |s| ==> !InClass(s[e], cls)
    decreases |s| - q
  {
    if q < |s| && InClass(s[q], cls) then ClassEnd(s, q + 1, cls) else q
  }

  lemma SpaceEndIsMaximal(s: string, q: nat)
    requires q <= |s|
    ensures forall e: nat :: SpacesBetween(s, q, e) ==> e <= SpaceEnd(s, q)
  {
  }

  lemma ClassEndIsMaximal(s: string, q: nat, cls: CharClass)
    requires q <= |s|
    ensures forall e: nat :: ClassBetween(s, q, e, cls) ==> e <= ClassEnd(s, q, cls)
  {
  }

  /** The tail, trying its fixed text at `c`, `c - 1`, ..., `b`. */
  function TailFrom(s: string, t: Tail, b: nat, c: nat): (r: Option<nat>)
    requires SpacesBetween(s, b, c) && (c == b || t.SpacedLiteral?)
    ensures r.Some? ==> r.value <= c && TailMatches(s, t, b, r.value)
    ensures forall c': nat :: c' <= c && TailMatches(s, t, b, c') ==> r.Some? && c' <= r.value
    decreases c - b
  {
    if LiteralAt(s, c, t.Text()) then Some(c)
    else if c == b then None
    else TailFrom(s, t, b, c - 1)
  }

  /** The tail from the group end `b`, with its `\s*` (if any) as long as possible. */
  function BestTail(s: string, t: Tail, b: nat): (r: Option<nat>)
    requires b <= |s|
    ensures r.Some? ==> TailMatches(s, t, b, r.value)
    ensures forall c: nat :: TailMatches(s, t, b, c) ==> r.Some? && c <= r.value
  {
    SpaceEndIsMaximal(s, b);
    TailFrom(s, t, b, if t.SpacedLiteral? then SpaceEnd(s, b) else b)
  }

  /** The group from `a`, trying it to end at `b`, `b - 1`, ..., `a + 1`. */
  function GroupFrom(s: string, p: Pattern, a: nat, b: nat): (r: Option<(nat, nat)>)
    requires ClassBetween(s, a, b, p.cls)
    ensures r.Some? ==> r.value.0 <= b && GroupMatches(s, p, a, r.value.0, r.value.1)
    ensures forall b': nat, c': nat :: b' <= b && GroupMatches(s, p, a, b', c') ==>
      r.Some? && (b' < r.value.0 || (b' == r.value.0 && c' <= r.value.1))
    decreases b - a
  {
    if b == a then None
    else
      match BestTail(s, p.tail, b)
      case Some(c) => Some((b, c))
      case None => GroupFrom(s, p, a, b - 1)
  }

  /** The group from `a` and the tail after it, each as long as possible in that order. */
  function BestGroup(s: string, p: Pattern, a: nat): (r: Option<(nat, nat)>)
    requires a <= |s|
    ensures r.Some? ==> GroupMatches(s, p, a, r.value.0, r.value.1)
    ensures forall b: nat, c: nat :: GroupMatches(s, p, a, b, c) ==>
      r.Some? && (b < r.value.0 || (b == r.value.0 && c <= r.value.1))
  {
    ClassEndIsMaximal(s, a, p.cls);
    GroupFrom(s, p, a, ClassEnd(s, a, p.cls))
  }

  /** The leading `\s*` from `j`, trying it to end at `a`, `a - 1`, ..., `j`. */
  function SpacesFrom(s: string, p: Pattern, j: nat, a: nat): (r: Option<(nat, nat, nat)>)
    requires SpacesBetween(s, j, a)
    ensures r.Some? ==>
      r.value.0 <= a && SpacesBetween(s, j, r.value.0) && GroupMatches(s, p, r.value.0, r.value.1, r.value.2)
    ensures forall a': nat, b': nat, c': nat :: a' <= a && SpacesBetween(s, j, a') && GroupMatches(s, p, a', b', c') ==>
      r.Some? && NotAfter(a', b', c', r.value.0, r.value.1, r.value.2)
    decreases a - j
  {
    match BestGroup(s, p, a)
    case Some(bc) => Some((a, bc.0, bc.1))
    case None => if a == j then None else SpacesFrom(s, p, j, a - 1)
  }

  /** The match the engine reports when it tries start position `i`, if any. */
  function BestAt(s: string, p: Pattern, i: nat): (r: Option<(nat, nat, nat)>)
    ensures r.Some? ==> PreferredAt(s, p, i, r.value.0, r.value.1, r.value.2)
    ensures r.None? ==> !MatchesAt(s, p, i)
  {
    if LiteralAt(s, i, p.labelText) then
      var j := i + |p.labelText|;
      SpaceEndIsMaximal(s, j);
      SpacesFrom(s, p, j, SpaceEnd(s, j))
    else None
  }

  /** `re.search` from start position `i` on: the group of the first start that matches. */
  function SearchFrom(s: string, p: Pattern, i: nat): (r: Option<string>)
    ensures r.None? ==> forall i': nat :: i <= i' ==> !MatchesAt(s, p, i')
    ensures r.Some? ==> exists i': nat, a: nat, b: nat, c: nat ::
      i <= i' && PreferredAt(s, p, i', a, b, c)
      && (forall i'': nat :: i <= i'' < i' ==> !MatchesAt(s, p, i''))
      && r.value == s[a..b]
    decreases |s| + 1 - i
  {
    if i > |s| then None
    else
      match BestAt(s, p, i)
      case Some(abc) => Some(s[abc.0..abc.1])
      case None => SearchFrom(s, p, i + 1)
  }

  lemma SearchFindsGroupInClass(s: string, p: Pattern, g: string)
    requires SearchFinds(s, p, g)
    ensures |g| >= 1 && forall q :: 0 <= q < |g| ==> InClass(g[q], p.cls)
  {
    var i: nat, a: nat, b: nat, c: nat :| PreferredAt(s, p, i, a, b, c)
      && (forall i': nat :: i' < i ==> !MatchesAt(s, p, i')) && g == s[a..b];
    forall q | 0 <= q < |g| ensures InClass(g[q], p.cls) {
      assert g[q] == s[a + q];
    }
  }

  /**
   * `re.search(p, s)`, returning group 1: `None` exactly when the pattern
   * matches nowhere, and otherwise the group of the reported match, a
   * non-empty run of class characters.
   */
  function Search(s: string, p: Pattern): (r: Option<string>)
    ensures r.None? <==> forall i: nat :: !MatchesAt(s, p, i)
    ensures r.Some? ==> SearchFinds(s, p, r.value)
    ensures r.Some? ==> |r.value| >= 1 && forall q :: 0 <= q < |r.value| ==> InClass(r.value[q], p.cls)
  {
    var r := SearchFrom(s, p, 0);
    if r.Some? then
      SearchFindsGroupInClass(s, p, r.value);
      assert !forall i: nat :: !MatchesAt(s, p, i) by {
        var i: nat, a: nat, b: nat, c: nat :| PreferredAt(s, p, i, a, b, c);
        assert MatchesWith(s, p, i, a, b, c);
        assert MatchesAt(s, p, i);
      }
      r
    else r
  }

  /** Any group the declarative semantics reports is what `Search` returns. */
  lemma SearchReturnsWhatSemanticsFinds(s: string, p: Pattern, g: string)
    requires SearchFinds(s, p, g)
    ensures Search(s, p) == Some(g)
  {
    var i: nat, a: nat, b: nat, c: nat :| PreferredAt(s, p, i, a, b, c)
      && (forall i': nat :: i' < i ==> !MatchesAt(s, p, i')) && g == s[a..b];
    assert MatchesWith(s, p, i, a, b, c);
    assert MatchesAt(s, p, i);
    var r := Search(s, p);
    SearchFindsUnique(s, p, r.value, g);
  }

  /** The start and end positions behind a reported group. */
  lemma Witness(s: string, p: Pattern, g: string) returns (i: nat, a: nat, b: nat, c: nat)
    requires SearchFinds(s, p, g)
    ensures PreferredAt(s, p, i, a, b, c) && (forall i': nat :: i' < i ==> !MatchesAt(s, p, i'))
    ensures a <= b <= |s| && g == s[a..b]
  {
    i, a, b, c :| PreferredAt(s, p, i, a, b, c)
      && (forall i': nat :: i' < i ==> !MatchesAt(s, p, i')) && g == s[a..b];
  }

  /** The preferred match at the leftmost matching start is unique. */
  lemma ReportedUnique(s: string, p: Pattern, i1: nat, a1: nat, b1: nat, c1: nat, i2: nat, a2: nat, b2: nat, c2: nat)
    requires PreferredAt(s, p, i1, a1, b1, c1) && forall i': nat :: i' < i1 ==> !MatchesAt(s, p, i')
    requires PreferredAt(s, p, i2, a2, b2, c2) && forall i': nat :: i' < i2 ==> !MatchesAt(s, p, i')
    ensures i1 == i2 && a1 == a2 && b1 == b2 && c1 == c2
  {
    assert MatchesAt(s, p, i1) by { assert MatchesWith(s, p, i1, a1, b1, c1); }
    assert MatchesAt(s, p, i2) by { assert MatchesWith(s, p, i2, a2, b2, c2); }
    assert i1 == i2;
    assert NotAfter(a2, b2, c2, a1, b1, c1) by { assert MatchesWith(s, p, i1, a2, b2, c2); }
    assert NotAfter(a1, b1, c1, a2, b2, c2) by { assert MatchesWith(s, p, i2, a1, b1, c1); }
  }

  /** The reported match is unique: the declarative semantics determines the group. */
  lemma SearchFindsUnique(s: string, p: Pattern, g1: string, g2: string)
    requires SearchFinds(s, p, g1) && SearchFinds(s, p, g2)
    ensures g1 == g2
  {
    var i1, a1, b1, c1 := Witness(s, p, g1);
    var i2, a2, b2, c2 := Witness(s, p, g2);
    ReportedUnique(s, p, i1, a1, b1, c1, i2, a2, b2, c2);
  }

  /** A pattern whose label occurs nowhere in the text finds nothing. */
  lemma NoLabelNoMatch(s: string, p: Pattern)
    requires forall i: nat :: !LiteralAt(s, i, p.labelText)
    ensures Search(s, p) == None
  {
  }
}
