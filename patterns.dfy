/** The five fixed regular expressions of the extractor, and the two `re` entry points it
    uses them with (`re.search`, `re.finditer`).

    Each pattern has two definitions:
    - a matcher (`EntityAt`, `ClauseAt`, `GenericItemAt`, `PortItemAt`) that computes the
      match Python's backtracking engine returns at one position, and
    - a form predicate (`EntityForm`, ...) that says, token by token, when a region of the
      text is matched by the pattern with given group boundaries.
    The lemmas relate the two: every match the matcher returns has the form, and whenever
    some region has the form the matcher succeeds and returns the match the engine
    prefers (the greedy or lazy choice, the first alternative).

    Why the matchers need no backtracking: a greedy run of one class followed by a token
    that cannot start with that class (`\w+` before `\s*:`, `\s*` before `(`) can never
    give characters back and still succeed, so the run is the longest one (`RunEnd`).
    The two places where the engine does backtrack are written out: `\s*([^;,]+)` in the
    generic item, and the alternation `(in|out|inout)` in the port item. */
module Patterns {
  import opened Text

  datatype Span = Span(lo: nat, hi: nat)

  /** A match object: the matched region s[start..end] and the span of each group. */
  datatype Match = Match(start: nat, end: nat, groups: seq<Span>)

  datatype Pattern =
    | EntityDecl     // entity\s+(\w+)\s+is                 with re.IGNORECASE
    | GenericClause  // generic\s*\((.*?)\);                with re.IGNORECASE | re.DOTALL
    | PortClause     // port\s*\((.*?)\);                   with re.IGNORECASE | re.DOTALL
    | GenericItem    // (\w+)\s*:\s*(\w+)\s*:=\s*([^;,]+)
    | PortItem       // (\w+)\s*:\s*(in|out|inout)\s*(\w+(?:\s*\(\s*[\w\s\-]+\s+downto\s+[\w\s\-]+\s*\))?)

  function GroupCount(p: Pattern): nat {
    match p
    case EntityDecl => 1
    case GenericClause => 1
    case PortClause => 1
    case GenericItem => 3
    case PortItem => 3
  }

  /** m is a non-empty match inside s with `count` groups, each inside the match. */
  predicate WellFormed(s: string, m: Match, count: nat) {
    m.start < m.end <= |s| && |m.groups| == count &&
    forall n :: 0 <= n < count ==> m.start <= m.groups[n].lo <= m.groups[n].hi <= m.end
  }

  /** `match.group(n + 1)`. */
  function Group(s: string, m: Match, n: nat): string
    requires n < |m.groups| && m.groups[n].lo <= m.groups[n].hi <= |s|
  {
    s[m.groups[n].lo..m.groups[n].hi]
  }

  /** The alternatives of `(in|out|inout)`. */
  predicate IsAlternative(dir: string) {
    dir == "in" || dir == "out" || dir == "inout"
  }

  /** The position of an alternative in the order the engine tries them. */
  function DirectionIndex(dir: string): nat {
    if dir == "in" then 0 else if dir == "out" then 1 else 2
  }

  // ---------------------------------------------------------------- entity\s+(\w+)\s+is

  function EntityAt(s: string, i: nat): (r: Option<Match>)
    requires i <= |s|
    ensures r.Some? ==> r.value.start == i && WellFormed(s, r.value, 1)
  {
    if !CiLiteralAt(s, i, "entity") then None
    else
      var j := RunEnd(s, i + 6, Space);
      var k := RunEnd(s, j, Word);
      var a := RunEnd(s, k, Space);
      if i + 6 < j && j < k && k < a && CiLiteralAt(s, a, "is") then Some(Match(i, a + 2, [Span(j, k)]))
      else None
  }

  /** `entity\s+(\w+)\s+is` matches s[m.start..m.end] with `is` at a. */
  ghost predicate EntityForm(s: string, m: Match, a: nat) {
    |m.groups| == 1 &&
    var i, j, k := m.start, m.groups[0].lo, m.groups[0].hi;
    && CiLiteralAt(s, i, "entity")
    && i + 6 < j && AllIn(s, i + 6, j, Space)     // \s+
    && j < k && AllIn(s, j, k, Word)              // (\w+)
    && k < a && AllIn(s, k, a, Space)             // \s+
    && CiLiteralAt(s, a, "is") && m.end == a + 2
  }

  lemma EntityAtHasForm(s: string, i: nat)
    requires i <= |s| && EntityAt(s, i).Some?
    ensures EntityForm(s, EntityAt(s, i).value, EntityAt(s, i).value.end - 2)
  {
  }

  /** All ways of matching the entity pattern at one position agree: the engine's match is the only one. */
  lemma EntityFormIsEntityAt(s: string, m: Match, a: nat)
    requires EntityForm(s, m, a)
    ensures m.start <= |s| && EntityAt(s, m.start) == Some(m)
  {
    var i, j, k := m.start, m.groups[0].lo, m.groups[0].hi;
    assert InClass(s[j], Word) && InClass(s[k], Space);
    RunEndIsMaximalRun(s, i + 6, j, Space);
    RunEndIsMaximalRun(s, j, k, Word);
    assert ToLower(s[a + 0]) == ToLower("is"[0]);
    RunEndIsMaximalRun(s, k, a, Space);
    assert m.groups == [Span(j, k)];
  }

  // ------------------------------------------------- generic\s*\((.*?)\);  port\s*\((.*?)\);

  function ClauseAt(s: string, keyword: string, i: nat): (r: Option<Match>)
    requires i <= |s|
    ensures r.Some? ==> r.value.start == i && WellFormed(s, r.value, 1)
  {
    if !CiLiteralAt(s, i, keyword) then None
    else
      var p := RunEnd(s, i + |keyword|, Space);
      if p < |s| && s[p] == '(' then
        match Find(s, ");", p + 1)
        case Some(k) => Some(Match(i, k + 2, [Span(p + 1, k)]))
        case None => None
      else None
  }

  /** `keyword\s*\((.*?)\);` matches s[m.start..m.end] with the opening parenthesis at p. */
  ghost predicate ClauseForm(s: string, keyword: string, m: Match, p: nat) {
    |m.groups| == 1
    && CiLiteralAt(s, m.start, keyword)
    && AllIn(s, m.start + |keyword|, p, Space)           // \s*
    && p < |s| && s[p] == '('                            // \(
    && m.groups[0].lo == p + 1 && p + 1 <= m.groups[0].hi  // (.*?), any characters
    && LiteralAt(s, m.groups[0].hi, ");") && m.end == m.groups[0].hi + 2
  }

  /** The lazy body stops at the first `);` after the parenthesis. */
  lemma ClauseAtHasForm(s: string, keyword: string, i: nat)
    requires i <= |s| && ClauseAt(s, keyword, i).Some?
    ensures ClauseForm(s, keyword, ClauseAt(s, keyword, i).value, ClauseAt(s, keyword, i).value.groups[0].lo - 1)
    ensures var g := ClauseAt(s, keyword, i).value.groups[0];
            forall k :: g.lo <= k < g.hi ==> !LiteralAt(s, k, ");")
  {
  }

  /** Wherever the clause pattern can match, the engine's match is the shortest one: the
      same body start, and the body ends at the earliest `);`. */
  lemma ClauseFormIsLazy(s: string, keyword: string, m': Match, p': nat)
    requires ClauseForm(s, keyword, m', p')
    ensures m'.start <= |s| && ClauseAt(s, keyword, m'.start).Some?
    ensures var m := ClauseAt(s, keyword, m'.start).value;
            m.groups[0].lo == m'.groups[0].lo && m.end <= m'.end
  {
    RunEndIsMaximalRun(s, m'.start + |keyword|, p', Space);
  }

  // ----------------------------------------------------- (\w+)\s*: shared by both item patterns

  /** `(\w+)\s*:` at i: the end of the name word and the position of the colon. */
  function NameColonAt(s: string, i: nat): (r: Option<(nat, nat)>)
    requires i <= |s|
    ensures r.Some? ==> NameColonForm(s, i, r.value.0, r.value.1)
  {
    var n := RunEnd(s, i, Word);
    var c := RunEnd(s, n, Space);
    if i < n && c < |s| && s[c] == ':' then Some((n, c)) else None
  }

  /** `(\w+)\s*:` matches s[i..c + 1] with the name s[i..n]. */
  ghost predicate NameColonForm(s: string, i: nat, n: nat, c: nat) {
    i < n && AllIn(s, i, n, Word) && AllIn(s, n, c, Space) && c < |s| && s[c] == ':'
  }

  /** The name and the colon can be placed in one way only. */
  lemma NameColonFormIsNameColonAt(s: string, i: nat, n: nat, c: nat)
    requires NameColonForm(s, i, n, c)
    ensures NameColonAt(s, i) == Some((n, c))
    ensures NameColonAt(s, i).value.0 == n && NameColonAt(s, i).value.1 == c
  {
    assert n < c ==> InClass(s[n], Space);
    RunEndIsMaximalRun(s, i, n, Word);
    RunEndIsMaximalRun(s, n, c, Space);
  }

  // ------------------------------------------------------ (\w+)\s*:\s*(\w+)\s*:=\s*([^;,]+)

  /** `\s*([^;,]+)` at j: the span of the value group. Greedy `\s*` takes all the whitespace
      when `[^;,]+` can start after it; otherwise it gives back its last character, which
      the value group then takes on its own. */
  function ValueAt(s: string, j: nat): (r: Option<Span>)
    requires j <= |s|
    ensures r.Some? ==> j <= r.value.lo < r.value.hi <= |s|
  {
    var w := RunEnd(s, j, Space);
    if w < |s| && InClass(s[w], NotSep) then Some(Span(w, RunEnd(s, w, NotSep)))
    else if j < w then Some(Span(w - 1, w))
    else None
  }

  /** `\s*([^;,]+)` matches s[j..v.hi] with the group s[v.lo..v.hi]. */
  ghost predicate ValueForm(s: string, j: nat, v: Span) {
    AllIn(s, j, v.lo, Space) && v.lo < v.hi && AllIn(s, v.lo, v.hi, NotSep)
  }

  lemma ValueAtHasForm(s: string, j: nat)
    requires j <= |s| && ValueAt(s, j).Some?
    ensures ValueForm(s, j, ValueAt(s, j).value)
  {
    var w := RunEnd(s, j, Space);
    if !(w < |s| && InClass(s[w], NotSep)) {
      assert InClass(s[w - 1], Space);
    }
  }

  /** A run of class k starting at i ends no later than the longest one. */
  lemma RunEndBoundsRuns(s: string, i: nat, x: nat, k: CharClass)
    requires AllIn(s, i, x, k)
    ensures x <= RunEnd(s, i, k)
  {
  }

  /** Wherever the value can be matched, ValueAt succeeds with the engine's choice: the
      latest start, then the latest end. */
  lemma ValueFormIsGreedy(s: string, j: nat, v': Span)
    requires ValueForm(s, j, v')
    ensures ValueAt(s, j).Some?
    ensures var v := ValueAt(s, j).value;
            v'.lo < v.lo || (v'.lo == v.lo && v'.hi <= v.hi)
  {
    var w := RunEnd(s, j, Space);
    RunEndBoundsRuns(s, j, v'.lo, Space);
    if w < |s| && InClass(s[w], NotSep) {
      if v'.lo == w {
        RunEndBoundsRuns(s, w, v'.hi, NotSep);
      }
    } else {
      assert InClass(s[v'.lo], NotSep);
    }
  }

  function GenericItemAt(s: string, i: nat): (r: Option<Match>)
    requires i <= |s|
    ensures r.Some? ==> r.value.start == i && WellFormed(s, r.value, 3)
  {
    var nc := NameColonAt(s, i);
    if nc.None? then None
    else
      var t0 := RunEnd(s, nc.value.1 + 1, Space);
      var t1 := RunEnd(s, t0, Word);
      var a := RunEnd(s, t1, Space);
      if t0 < t1 && LiteralAt(s, a, ":=") && ValueAt(s, a + 2).Some? then
        var v := ValueAt(s, a + 2).value;
        Some(Match(i, v.hi, [Span(i, nc.value.0), Span(t0, t1), v]))
      else None
  }

  /** `(\w+)\s*:\s*(\w+)\s*:=\s*([^;,]+)` matches s[m.start..m.end] with the colon at c and `:=` at a. */
  ghost predicate GenericItemForm(s: string, m: Match, c: nat, a: nat) {
    |m.groups| == 3 &&
    var t0, t1 := m.groups[1].lo, m.groups[1].hi;
    && m.groups[0].lo == m.start && NameColonForm(s, m.start, m.groups[0].hi, c)  // (\w+)\s*:
    && AllIn(s, c + 1, t0, Space)                      // \s*
    && t0 < t1 && AllIn(s, t0, t1, Word)               // (\w+)
    && AllIn(s, t1, a, Space)                          // \s*
    && LiteralAt(s, a, ":=")                           // :=
    && ValueForm(s, a + 2, m.groups[2])                // \s*([^;,]+)
    && m.end == m.groups[2].hi
  }

  /** A generic item match is made of the results of GenericItemAt's steps: the name, the
      type word, `:=` and the value. */
  lemma GenericItemAtParts(s: string, i: nat)
    requires i <= |s| && GenericItemAt(s, i).Some?
    ensures NameColonAt(s, i).Some?
    ensures var nc := NameColonAt(s, i).value;
            var t0 := RunEnd(s, nc.1 + 1, Space);
            var t1 := RunEnd(s, t0, Word);
            var a := RunEnd(s, t1, Space);
            && t0 < t1 && LiteralAt(s, a, ":=") && ValueAt(s, a + 2).Some?
            && GenericItemAt(s, i).value ==
                 Match(i, ValueAt(s, a + 2).value.hi, [Span(i, nc.0), Span(t0, t1), ValueAt(s, a + 2).value])
  {
  }

  /** When each of GenericItemAt's steps succeeds, so does GenericItemAt, with their results as groups. */
  lemma GenericItemAtFromSteps(s: string, i: nat, n: nat, c: nat, t0: nat, t1: nat, a: nat, v: Span)
    requires i <= |s| && NameColonAt(s, i) == Some((n, c))
    requires t0 == RunEnd(s, c + 1, Space) && t1 == RunEnd(s, t0, Word) && t0 < t1
    requires a == RunEnd(s, t1, Space) && LiteralAt(s, a, ":=") && ValueAt(s, a + 2) == Some(v)
    ensures GenericItemAt(s, i) == Some(Match(i, v.hi, [Span(i, n), Span(t0, t1), v]))
  {
  }

  lemma GenericItemAtHasForm(s: string, i: nat)
    requires i <= |s| && GenericItemAt(s, i).Some?
    ensures exists c, a :: GenericItemForm(s, GenericItemAt(s, i).value, c, a)
  {
    GenericItemAtParts(s, i);
    var m := GenericItemAt(s, i).value;
    var c := NameColonAt(s, i).value.1;
    var a := RunEnd(s, m.groups[1].hi, Space);
    ValueAtHasForm(s, a + 2);
    assert GenericItemForm(s, m, c, a);
  }

  /** Wherever the generic item pattern can match, the engine succeeds with the same name
      and type, and its value group is the one greedy `\s*` then greedy `[^;,]+` pick:
      the latest start, then the latest end. */
  lemma GenericItemFormIsGreedy(s: string, m': Match, c': nat, a': nat)
    requires GenericItemForm(s, m', c', a')
    ensures m'.start <= |s| && GenericItemAt(s, m'.start).Some?
    ensures var m := GenericItemAt(s, m'.start).value;
            && m.groups[0] == m'.groups[0] && m.groups[1] == m'.groups[1]
            && (m'.groups[2].lo < m.groups[2].lo || (m'.groups[2].lo == m.groups[2].lo && m'.end <= m.end))
  {
    var t0, t1 := m'.groups[1].lo, m'.groups[1].hi;
    NameColonFormIsNameColonAt(s, m'.start, m'.groups[0].hi, c');
    assert InClass(s[t0], Word);
    RunEndIsMaximalRun(s, c' + 1, t0, Space);
    assert s[a'] == s[a'..a' + 2][0];
    assert t1 < a' ==> InClass(s[t1], Space);
    RunEndIsMaximalRun(s, t0, t1, Word);
    RunEndIsMaximalRun(s, t1, a', Space);
    ValueFormIsGreedy(s, a' + 2, m'.groups[2]);
    GenericItemAtFromSteps(s, m'.start, m'.groups[0].hi, c', t0, t1, a', ValueAt(s, a' + 2).value);
  }

  // --------------------- (\w+)\s*:\s*(in|out|inout)\s*(\w+(?:\s*\(\s*[\w\s\-]+\s+downto\s+[\w\s\-]+\s*\))?)

  /** `downto` at x with whitespace on both sides. */
  predicate DowntoAt(s: string, x: nat) {
    1 <= x && x + 7 <= |s| && IsSpace(s[x - 1]) && LiteralAt(s, x, "downto") && IsSpace(s[x + 6])
  }

  /** The run of range characters s[lo..hi] can be read as `\s*[\w\s\-]+\s+downto\s+[\w\s\-]+\s*`:
      some `downto` inside it has whitespace on both sides and at least one more character
      on each side of that whitespace. */
  predicate HasDownto(s: string, lo: nat, hi: nat) {
    exists x: nat :: lo + 2 <= x && x + 8 <= hi && DowntoAt(s, x)
  }

  /** Where the optional bracketed range group ends when tried at t: after its closing
      parenthesis when it matches, at t when it does not. */
  function RangeEnd(s: string, t: nat): (e: nat)
    requires t <= |s|
    ensures t <= e <= |s|
  {
    var p := RunEnd(s, t, Space);
    if p < |s| && s[p] == '(' then
      var r := RunEnd(s, p + 1, Bound);
      if r < |s| && s[r] == ')' && HasDownto(s, p + 1, r) then r + 1 else t
    else t
  }

  /** `\s*\(\s*[\w\s\-]+\s+downto\s+[\w\s\-]+\s*\)` matches s[t..e] with the parenthesis at p
      and `downto` at x. As `\s` lies inside `[\w\s\-]`, `\s*[\w\s\-]+\s+` is any run of at
      least two range characters ending in whitespace, and `\s+[\w\s\-]+\s*` any run of at
      least two starting with whitespace. */
  ghost predicate RangeForm(s: string, t: nat, p: nat, x: nat, e: nat) {
    && AllIn(s, t, p, Space) && p < |s| && s[p] == '('                   // \s*\(
    && p + 3 <= x && LiteralAt(s, x, "downto")                           // downto, preceded by
    && AllIn(s, p + 1, x - 1, Bound) && IsSpace(s[x - 1])               // \s*[\w\s\-]+\s+
    && x + 8 < e <= |s| && IsSpace(s[x + 6]) && AllIn(s, x + 7, e - 1, Bound)  // \s+[\w\s\-]+\s*
    && s[e - 1] == ')'                                                   // \)
  }

  /** The optional range matches s[t..e] in some way. */
  ghost predicate RangeMatches(s: string, t: nat, e: nat) {
    exists p, x :: RangeForm(s, t, p, x, e)
  }

  lemma RangeEndHasForm(s: string, t: nat)
    requires t <= |s|
    ensures RangeEnd(s, t) == t || RangeMatches(s, t, RangeEnd(s, t))
  {
    var p := RunEnd(s, t, Space);
    if p < |s| && s[p] == '(' {
      var r := RunEnd(s, p + 1, Bound);
      if r < |s| && s[r] == ')' && HasDownto(s, p + 1, r) {
        var x: nat :| p + 1 + 2 <= x && x + 8 <= r && DowntoAt(s, x);
        assert RangeForm(s, t, p, x, r + 1);
      }
    }
  }

  lemma RangeFormIsRangeEnd(s: string, t: nat, p: nat, x: nat, e: nat)
    requires RangeForm(s, t, p, x, e)
    ensures RangeEnd(s, t) == e
  {
    RunEndIsMaximalRun(s, t, p, Space);
    forall m | p + 1 <= m < e - 1
      ensures InClass(s[m], Bound)
    {
      if x <= m < x + 6 {
        assert s[m] == s[x..x + 6][m - x];
      } else if m < x - 1 {
        assert InClass(s[m], Bound);
      } else if x + 7 <= m {
        assert InClass(s[m], Bound);
      }
    }
    RunEndIsMaximalRun(s, p + 1, e - 1, Bound);
    assert DowntoAt(s, x);
    assert HasDownto(s, p + 1, e - 1);
  }

  /** At d, the alternative `lit` and what follows it in the pattern: `\s*`, the type word
      and the optional range. Gives the span of the type group. */
  function TypeAfter(s: string, d: nat, lit: string): (r: Option<Span>)
    requires d <= |s|
    ensures r.Some? ==> LiteralAt(s, d, lit) && d + |lit| <= r.value.lo < r.value.hi <= |s|
  {
    if LiteralAt(s, d, lit) then
      var t0 := RunEnd(s, d + |lit|, Space);
      var t1 := RunEnd(s, t0, Word);
      if t0 < t1 then Some(Span(t0, RangeEnd(s, t1))) else None
    else None
  }

  /** `lit\s*(\w+(?:range)?)` matches s[d..e] with the type word s[t0..t1]. */
  ghost predicate TypeForm(s: string, d: nat, lit: string, t0: nat, t1: nat, e: nat) {
    && LiteralAt(s, d, lit)                             // the alternative
    && AllIn(s, d + |lit|, t0, Space)                   // \s*
    && t0 < t1 && AllIn(s, t0, t1, Word)                // \w+
    && (e == t1 || RangeMatches(s, t1, e))              // (?:range)?
  }

  lemma TypeAfterHasForm(s: string, d: nat, lit: string)
    requires d <= |s| && TypeAfter(s, d, lit).Some?
    ensures var ty := TypeAfter(s, d, lit).value;
            TypeForm(s, d, lit, ty.lo, RunEnd(s, ty.lo, Word), ty.hi)
  {
    RangeEndHasForm(s, RunEnd(s, TypeAfter(s, d, lit).value.lo, Word));
  }

  /** Wherever the alternative can be followed by the rest of the pattern, TypeAfter succeeds
      with the same type start and reaches at least as far: the longest type word, then the
      range when one can follow it. */
  lemma TypeFormIsLongest(s: string, d: nat, lit: string, t0: nat, t1: nat, e: nat)
    requires d <= |s| && TypeForm(s, d, lit, t0, t1, e)
    ensures TypeAfter(s, d, lit).Some?
    ensures TypeAfter(s, d, lit).value.lo == t0 && e <= TypeAfter(s, d, lit).value.hi
  {
    assert InClass(s[t0], Word);
    RunEndIsMaximalRun(s, d + |lit|, t0, Space);
    RunEndBoundsRuns(s, t0, t1, Word);
    if e != t1 {
      var p, x :| RangeForm(s, t1, p, x, e);
      assert t1 < p ==> InClass(s[t1], Space);
      RunEndIsMaximalRun(s, t0, t1, Word);
      RangeFormIsRangeEnd(s, t1, p, x, e);
    }
  }

  /** `(in|out|inout)\s*(\w+(?:range)?)` at d: the alternative taken and the type group.
      The engine tries the alternatives in order and keeps the first one after which the
      rest of the pattern matches. */
  function DirectionAndType(s: string, d: nat): (r: Option<(string, Span)>)
    requires d <= |s|
    ensures r.Some? ==> IsAlternative(r.value.0) && LiteralAt(s, d, r.value.0)
    ensures r.Some? ==> d + |r.value.0| <= r.value.1.lo < r.value.1.hi <= |s|
  {
    if TypeAfter(s, d, "in").Some? then Some(("in", TypeAfter(s, d, "in").value))
    else if TypeAfter(s, d, "out").Some? then Some(("out", TypeAfter(s, d, "out").value))
    else if TypeAfter(s, d, "inout").Some? then Some(("inout", TypeAfter(s, d, "inout").value))
    else None
  }

  function PortItemAt(s: string, i: nat): (r: Option<Match>)
    requires i <= |s|
    ensures r.Some? ==> r.value.start == i && WellFormed(s, r.value, 3)
  {
    var nc := NameColonAt(s, i);
    if nc.None? then None
    else
      var d := RunEnd(s, nc.value.1 + 1, Space);
      var dt := DirectionAndType(s, d);
      if dt.None? then None
      else Some(Match(i, dt.value.1.hi, [Span(i, nc.value.0), Span(d, d + |dt.value.0|), dt.value.1]))
  }

  /** The port item pattern matches s[m.start..m.end] with the colon at c, the alternative
      dir, and the type word ending at t1. */
  ghost predicate PortItemForm(s: string, m: Match, c: nat, dir: string, t1: nat) {
    |m.groups| == 3 &&
    var d := m.groups[1].lo;
    && m.groups[0].lo == m.start && NameColonForm(s, m.start, m.groups[0].hi, c)  // (\w+)\s*:
    && AllIn(s, c + 1, d, Space)                                                   // \s*
    && IsAlternative(dir) && m.groups[1].hi == d + |dir|                           // (in|out|inout)
    && TypeForm(s, d, dir, m.groups[2].lo, t1, m.groups[2].hi)                     // \s*(\w+(?:range)?)
    && m.end == m.groups[2].hi
  }

  /** A port item match is made of the results of PortItemAt's steps. */
  lemma PortItemAtParts(s: string, i: nat)
    requires i <= |s| && PortItemAt(s, i).Some?
    ensures NameColonAt(s, i).Some?
    ensures var m, nc := PortItemAt(s, i).value, NameColonAt(s, i).value;
            var d := m.groups[1].lo;
            && m.groups[0] == Span(i, nc.0) && d == RunEnd(s, nc.1 + 1, Space)
            && DirectionAndType(s, d).Some?
            && m.groups[1].hi == d + |DirectionAndType(s, d).value.0|
            && m.groups[2] == DirectionAndType(s, d).value.1 && m.end == m.groups[2].hi
  {
  }

  /** When each of PortItemAt's steps succeeds, so does PortItemAt, with their results as groups. */
  lemma PortItemAtFromSteps(s: string, i: nat, d: nat)
    requires i <= |s| && NameColonAt(s, i).Some? && d == RunEnd(s, NameColonAt(s, i).value.1 + 1, Space)
    requires DirectionAndType(s, d).Some?
    ensures var nc, dt := NameColonAt(s, i).value, DirectionAndType(s, d).value;
            PortItemAt(s, i) == Some(Match(i, dt.1.hi, [Span(i, nc.0), Span(d, d + |dt.0|), dt.1]))
  {
  }

  /** The direction group is the alternative DirectionAndType takes. */
  lemma PortItemAtDirection(s: string, i: nat)
    requires i <= |s| && PortItemAt(s, i).Some?
    ensures var m := PortItemAt(s, i).value;
            Group(s, m, 1) == DirectionAndType(s, m.groups[1].lo).value.0
  {
    PortItemAtParts(s, i);
    var d := PortItemAt(s, i).value.groups[1].lo;
    assert LiteralAt(s, d, DirectionAndType(s, d).value.0);
  }

  lemma PortItemAtHasForm(s: string, i: nat)
    requires i <= |s| && PortItemAt(s, i).Some?
    ensures exists c, dir, t1 :: PortItemForm(s, PortItemAt(s, i).value, c, dir, t1)
  {
    PortItemAtParts(s, i);
    var m := PortItemAt(s, i).value;
    var d := m.groups[1].lo;
    var dir := DirectionAndType(s, d).value.0;
    TypeAfterHasForm(s, d, dir);
    assert PortItemForm(s, m, NameColonAt(s, i).value.1, dir, RunEnd(s, m.groups[2].lo, Word));
  }

  /** Wherever an alternative can be followed by the rest of the pattern, the engine takes
      an alternative no later than that one, and with the same one reaches at least as far. */
  lemma DirectionAndTypeIsFirstAlternative(s: string, d: nat, dir': string, t0: nat, t1: nat, e: nat)
    requires d <= |s| && IsAlternative(dir') && TypeForm(s, d, dir', t0, t1, e)
    ensures DirectionAndType(s, d).Some?
    ensures var dt := DirectionAndType(s, d).value;
            && DirectionIndex(dt.0) <= DirectionIndex(dir')
            && (DirectionIndex(dt.0) == DirectionIndex(dir') ==> dt.1.lo == t0 && e <= dt.1.hi)
  {
    TypeFormIsLongest(s, d, dir', t0, t1, e);
  }

  /** Wherever the port item pattern can match, the engine succeeds with the same name, at
      the same direction position, with an alternative no later than that one; with the
      same alternative its match reaches at least as far (the longest type word, then the
      range when it can follow). */
  lemma PortItemFormIsFirstAlternative(s: string, m': Match, c': nat, dir': string, t1': nat)
    requires PortItemForm(s, m', c', dir', t1')
    ensures m'.start <= |s| && PortItemAt(s, m'.start).Some?
    ensures var m := PortItemAt(s, m'.start).value;
            && m.groups[0] == m'.groups[0] && m.groups[1].lo == m'.groups[1].lo
            && DirectionIndex(Group(s, m, 1)) <= DirectionIndex(dir')
            && (DirectionIndex(Group(s, m, 1)) == DirectionIndex(dir') ==> m'.end <= m.end)
  {
    PortItemFormSteps(s, m', c', dir', t1');
    PortItemAtFromSteps(s, m'.start, m'.groups[1].lo);
    PortItemAtDirection(s, m'.start);
  }

  /** An alternative of `(in|out|inout)` does not start with whitespace. */
  lemma AlternativeStartsWithLetter(s: string, d: nat, dir: string)
    requires IsAlternative(dir) && LiteralAt(s, d, dir)
    ensures d < |s| && !InClass(s[d], Space)
  {
    assert s[d] == s[d..d + |dir|][0];
  }

  /** The steps of PortItemAt succeed where the port item form holds, with the name and
      the direction where the form has them. */
  lemma PortItemFormSteps(s: string, m': Match, c': nat, dir': string, t1': nat)
    requires PortItemForm(s, m', c', dir', t1')
    ensures m'.start <= |s| && NameColonAt(s, m'.start).Some?
    ensures NameColonAt(s, m'.start).value.0 == m'.groups[0].hi && NameColonAt(s, m'.start).value.1 == c'
    ensures RunEnd(s, NameColonAt(s, m'.start).value.1 + 1, Space) == m'.groups[1].lo
    ensures var d := m'.groups[1].lo;
            && DirectionAndType(s, d).Some?
            && var dt := DirectionAndType(s, d).value;
            && DirectionIndex(dt.0) <= DirectionIndex(dir')
            && (DirectionIndex(dt.0) == DirectionIndex(dir') ==> m'.end <= dt.1.hi)
  {
    var i, n, d := m'.start, m'.groups[0].hi, m'.groups[1].lo;
    NameColonFormIsNameColonAt(s, i, n, c');
    AlternativeStartsWithLetter(s, d, dir');
    RunEndIsMaximalRun(s, c' + 1, d, Space);
    DirectionAndTypeIsFirstAlternative(s, d, dir', m'.groups[2].lo, t1', m'.groups[2].hi);
  }

  /** After `inout`, the first alternative `in` already succeeds: `\s*` matches nothing
      and the type word starts with `out`. */
  lemma InoutTakesIn(s: string, d: nat)
    requires d <= |s| && LiteralAt(s, d, "inout")
    ensures DirectionAndType(s, d).Some?
    ensures DirectionAndType(s, d).value.0 == "in" && DirectionAndType(s, d).value.1.lo == d + 2
    ensures d + 5 <= DirectionAndType(s, d).value.1.hi
    ensures s[d..d + 2] == "in" && s[d + 2..d + 5] == "out"
  {
    assert s[d + 2] == s[d..d + 5][2] && s[d + 3] == s[d..d + 5][3] && s[d + 4] == s[d..d + 5][4];
    assert s[d..d + 2] == s[d..d + 5][..2];
    assert RunEnd(s, d + 2, Space) == d + 2;
    assert InClass(s[d + 2], Word) && InClass(s[d + 3], Word) && InClass(s[d + 4], Word);
    RunEndBoundsRuns(s, d + 2, d + 5, Word);
  }

  /** The alternative taken is `in` or `out`, never `inout`; after `inout` it is `in`, with
      the type group starting at `out`. */
  lemma DirectionIsInOrOut(s: string, d: nat)
    requires d <= |s| && DirectionAndType(s, d).Some?
    ensures var dt := DirectionAndType(s, d).value;
            && (dt.0 == "in" || dt.0 == "out")
            && (LiteralAt(s, d, "inout") ==> dt.0 == "in" && dt.1.lo == d + 2 && d + 5 <= dt.1.hi)
  {
    if LiteralAt(s, d, "inout") {
      InoutTakesIn(s, d);
    }
  }

  /** `inout` is never recorded: `in` is tried first and the rest of the pattern always
      matches after it, taking `out` as the start of the type. */
  lemma PortDirectionIsInOrOut(s: string, i: nat)
    requires i <= |s| && PortItemAt(s, i).Some?
    ensures var m := PortItemAt(s, i).value;
            Group(s, m, 1) == "in" || Group(s, m, 1) == "out"
    ensures var m := PortItemAt(s, i).value;
            LiteralAt(s, m.groups[1].lo, "inout") ==> Group(s, m, 1) == "in" && m.groups[2].lo == m.groups[1].lo + 2
  {
    PortItemAtParts(s, i);
    var m := PortItemAt(s, i).value;
    var d := m.groups[1].lo;
    assert Group(s, m, 1) == DirectionAndType(s, d).value.0;
    DirectionIsInOrOut(s, d);
  }

  /** An `inout T` entry is recorded as direction `in` with a type that starts with `out`. */
  lemma InoutRecordedAsInOut(s: string, i: nat)
    requires i <= |s| && PortItemAt(s, i).Some? && LiteralAt(s, PortItemAt(s, i).value.groups[1].lo, "inout")
    ensures var m := PortItemAt(s, i).value;
            Group(s, m, 1) == "in" && |Group(s, m, 2)| >= 3 && Group(s, m, 2)[..3] == "out"
  {
    PortItemAtParts(s, i);
    var m := PortItemAt(s, i).value;
    var d := m.groups[1].lo;
    InoutTakesIn(s, d);
    assert m.groups[1] == Span(d, d + 2) && m.groups[2].lo == d + 2;
    PrefixOfSlice(s, d + 2, m.groups[2].hi, 3);
  }

  /** `inout` at d, followed by no word character and no bracketed range, as in
      `inout std_logic`. */
  predicate InoutPlainType(s: string, d: nat) {
    && LiteralAt(s, d, "inout")
    && (d + 5 == |s| || !InClass(s[d + 5], Word))
    && (var p := RunEnd(s, d + 5, Space); p == |s| || s[p] != '(')
  }

  /** After `inout` with a plain type name, the type group is exactly `out`: the declared
      type is lost. */
  lemma InoutThenTypeIsOut(s: string, d: nat)
    requires d <= |s| && InoutPlainType(s, d)
    ensures DirectionAndType(s, d) == Some(("in", Span(d + 2, d + 5)))
  {
    InoutTakesIn(s, d);
    assert AllIn(s, d + 2, d + 5, Word) by {
      assert s[d + 2] == s[d..d + 5][2] && s[d + 3] == s[d..d + 5][3] && s[d + 4] == s[d..d + 5][4];
    }
    RunEndIsMaximalRun(s, d + 2, d + 5, Word);
  }

  /** The entry `q : inout std_logic` has direction `in` and type `out`. */
  lemma InoutStdLogicExample()
    ensures PortItemAt("q : inout std_logic", 0) == Some(Match(0, 9, [Span(0, 1), Span(4, 6), Span(6, 9)]))
  {
    var s := "q : inout std_logic";
    assert s[4..9] == "inout";
    NameColonFormIsNameColonAt(s, 0, 1, 2);
    RunEndIsMaximalRun(s, 3, 4, Space);
    RunEndIsMaximalRun(s, 9, 10, Space);
    InoutThenTypeIsOut(s, 4);
    PortItemAtFromSteps(s, 0, 4);
  }

  /** A mixed-case `inOut` still starts with lower-case `in`, so the `in` alternative
      matches and the entry is kept, with type `Out`. */
  lemma MixedCaseInoutKept()
    ensures DirectionAndType("inOut bit", 0) == Some(("in", Span(2, 5)))
  {
    var s := "inOut bit";
    assert s[0..2] == "in";
    assert RunEnd(s, 2, Space) == 2;
    assert RunEnd(s, 2, Word) == 5;
    assert RunEnd(s, 5, Space) == 6;
  }

  /** The type group holds no `;` or `,`: a word, then possibly whitespace, `(`, range
      characters, `downto` and `)`. */
  lemma TypeFormNoSeparator(s: string, d: nat, lit: string, t0: nat, t1: nat, e: nat)
    requires TypeForm(s, d, lit, t0, t1, e)
    ensures t0 < e <= |s| && AllIn(s, t0, e, NotSep)
  {
    if e != t1 {
      var p: nat, x: nat :| RangeForm(s, t1, p, x, e);
      forall m | t0 <= m < e
        ensures InClass(s[m], NotSep)
      {
        if m < t1 {
          assert InClass(s[m], Word);
        } else if m < p {
          assert InClass(s[m], Space);
        } else if p < m < x - 1 {
          assert InClass(s[m], Bound);
        } else if x <= m < x + 6 {
          assert s[m] == s[x..x + 6][m - x];
        } else if x + 7 <= m < e - 1 {
          assert InClass(s[m], Bound);
        }
      }
    } else {
      forall m | t0 <= m < e
        ensures InClass(s[m], NotSep)
      {
        assert InClass(s[m], Word);
      }
    }
  }

  /** What a port item match captures: a name word, and a type that starts with a word
      character and holds no `;` or `,`. */
  lemma PortItemGroups(s: string, i: nat)
    requires i <= |s| && PortItemAt(s, i).Some?
    ensures var m := PortItemAt(s, i).value;
            && m.groups[0].lo < m.groups[0].hi && AllIn(s, m.groups[0].lo, m.groups[0].hi, Word)
            && m.groups[2].lo < m.groups[2].hi && IsWordChar(s[m.groups[2].lo])
            && AllIn(s, m.groups[2].lo, m.groups[2].hi, NotSep)
  {
    PortItemAtParts(s, i);
    var m := PortItemAt(s, i).value;
    var d := m.groups[1].lo;
    var dir := DirectionAndType(s, d).value.0;
    TypeAfterHasForm(s, d, dir);
    var t1 := RunEnd(s, m.groups[2].lo, Word);
    TypeFormNoSeparator(s, d, dir, m.groups[2].lo, t1, m.groups[2].hi);
    assert InClass(s[m.groups[2].lo], Word);
  }

  /** What a generic item match captures: a name word, a type word, and a value that holds
      no `;` or `,`. */
  lemma GenericItemGroups(s: string, i: nat)
    requires i <= |s| && GenericItemAt(s, i).Some?
    ensures var m := GenericItemAt(s, i).value;
            && m.groups[0].lo < m.groups[0].hi && AllIn(s, m.groups[0].lo, m.groups[0].hi, Word)
            && m.groups[1].lo < m.groups[1].hi && AllIn(s, m.groups[1].lo, m.groups[1].hi, Word)
            && m.groups[2].lo < m.groups[2].hi && AllIn(s, m.groups[2].lo, m.groups[2].hi, NotSep)
  {
    GenericItemAtParts(s, i);
    var m := GenericItemAt(s, i).value;
    ValueAtHasForm(s, RunEnd(s, m.groups[1].hi, Space) + 2);
  }

  /** The alternation is case-sensitive: an entry whose direction does not start with
      lower-case `in` or `out` (`IN`, `Out`, `iN`, ...) is not matched. */
  lemma MiscasedDirectionNotMatched(s: string, i: nat, n: nat, c: nat, d: nat)
    requires NameColonForm(s, i, n, c)
    requires AllIn(s, c + 1, d, Space) && d <= |s| && (d == |s| || !IsSpace(s[d]))
    requires !LiteralAt(s, d, "in") && !LiteralAt(s, d, "out")
    ensures PortItemAt(s, i).None?
  {
    NameColonFormIsNameColonAt(s, i, n, c);
    assert d < |s| ==> !InClass(s[d], Space);
    RunEndIsMaximalRun(s, c + 1, d, Space);
    NoAlternativeAt(s, d);
    var nc := NameColonAt(s, i);
    assert RunEnd(s, nc.value.1 + 1, Space) == d;
  }

  /** Where neither `in` nor `out` is written in lower case, no alternative matches: `inout`
      starts with `in`. */
  lemma NoAlternativeAt(s: string, d: nat)
    requires d <= |s| && !LiteralAt(s, d, "in") && !LiteralAt(s, d, "out")
    ensures DirectionAndType(s, d).None?
  {
    InoutStartsWithIn(s, d);
  }

  lemma InoutStartsWithIn(s: string, d: nat)
    ensures LiteralAt(s, d, "inout") ==> LiteralAt(s, d, "in")
  {
    if LiteralAt(s, d, "inout") {
      assert s[d..d + 2] == s[d..d + 5][..2];
    }
  }

  // ----------------------------------------------------------------- re.search, re.finditer

  function MatchAt(p: Pattern, s: string, i: nat): (r: Option<Match>)
    requires i <= |s|
    ensures r.Some? ==> r.value.start == i && WellFormed(s, r.value, GroupCount(p))
  {
    match p
    case EntityDecl => EntityAt(s, i)
    case GenericClause => ClauseAt(s, "generic", i)
    case PortClause => ClauseAt(s, "port", i)
    case GenericItem => GenericItemAt(s, i)
    case PortItem => PortItemAt(s, i)
  }

  /** What trying the pattern at each position 0, 1, ..., n - 1 gives: the table `re.search`
      and `re.finditer` scan. */
  function Attempts(p: Pattern, s: string, n: nat): (t: seq<Option<Match>>)
    requires n <= |s| + 1
    ensures |t| == n && forall i :: 0 <= i < n ==> t[i] == MatchAt(p, s, i)
  {
    if n == 0 then [] else Attempts(p, s, n - 1) + [MatchAt(p, s, n - 1)]
  }

  /** The full table is consistent: each match starts where it was tried and ends inside the text. */
  lemma AttemptsConsistent(p: Pattern, s: string)
    ensures Consistent(Attempts(p, s, |s| + 1))
  {
    var t := Attempts(p, s, |s| + 1);
    forall i | 0 <= i < |t| && t[i].Some?
      ensures t[i].value.start == i < t[i].value.end < |t|
    {
      var r := MatchAt(p, s, i);
      assert t[i] == r;
    }
  }

  /** Every entry of the table is a match starting at its own position and ending, after it,
      within the text (whose length is |t| - 1). */
  predicate Consistent(t: seq<Option<Match>>) {
    forall i :: 0 <= i < |t| && t[i].Some? ==> t[i].value.start == i < t[i].value.end < |t|
  }

  /** `re.search` from position `from`: the leftmost position that has a match. */
  function Search(t: seq<Option<Match>>, from: nat): (r: Option<nat>)
    requires from <= |t|
    ensures r.Some? ==> from <= r.value < |t| && t[r.value].Some?
    ensures forall i :: from <= i < |t| && (r.None? || i < r.value) ==> t[i].None?
    decreases |t| - from
  {
    if from == |t| then None
    else if t[from].Some? then Some(from)
    else Search(t, from + 1)
  }

  /** `re.finditer` from position `from`: each match is searched for from the end of the previous one. */
  function FindAll(t: seq<Option<Match>>, from: nat): (r: seq<Match>)
    requires from <= |t| && Consistent(t)
    ensures forall k :: 0 <= k < |r| ==> from <= r[k].start < |t| && t[r[k].start] == Some(r[k])
    ensures forall k :: 0 < k < |r| ==> r[k - 1].end <= r[k].start
    decreases |t| - from
  {
    match Search(t, from)
    case None => []
    case Some(k) => [t[k].value] + FindAll(t, t[k].value.end)
  }

  /** Position i lies in one of the matches. */
  ghost predicate Covered(r: seq<Match>, i: nat) {
    exists k :: 0 <= k < |r| && r[k].start <= i < r[k].end
  }

  /** finditer skips no match: every position where the pattern matches is the start of one
      of the matches found, or lies inside one. */
  lemma {:induction false} FindAllMissesNothing(t: seq<Option<Match>>, from: nat, i: nat)
    requires Consistent(t) && from <= i < |t| && t[i].Some?
    ensures Covered(FindAll(t, from), i)
    decreases |t| - from
  {
    var k := Search(t, from).value;
    var m := t[k].value;
    var rest := FindAll(t, m.end);
    var r := FindAll(t, from);
    assert r == [m] + rest;
    if i < m.end {
      assert r[0].start <= i < r[0].end;
    } else {
      FindAllMissesNothing(t, m.end, i);
      var j :| 0 <= j < |rest| && rest[j].start <= i < rest[j].end;
      assert r[j + 1] == rest[j];
    }
  }

  /** `re.search(p, s)`: the match at the leftmost position that has one. */
  function SearchText(p: Pattern, s: string): (r: Option<Match>)
    ensures r.Some? ==> r.value.start <= |s| && MatchAt(p, s, r.value.start) == r
  {
    var t := Attempts(p, s, |s| + 1);
    match Search(t, 0)
    case None => None
    case Some(k) => t[k]
  }

  /** No position before the one re.search reports has a match. */
  lemma SearchTextIsLeftmost(p: Pattern, s: string, i: nat)
    requires i <= |s| && MatchAt(p, s, i).Some?
    ensures SearchText(p, s).Some? && SearchText(p, s).value.start <= i
  {
    var t := Attempts(p, s, |s| + 1);
    assert t[i].Some?;
  }

  /** `re.finditer(p, s)`, as a list: the matches in scan order, none overlapping the next. */
  function Matches(p: Pattern, s: string): (r: seq<Match>)
    ensures forall k :: 0 <= k < |r| ==> WellFormed(s, r[k], GroupCount(p))
    ensures forall k :: 0 < k < |r| ==> r[k - 1].end <= r[k].start
  {
    AttemptsConsistent(p, s);
    FindAll(Attempts(p, s, |s| + 1), 0)
  }

  /** Each match finditer yields is the match of the pattern at its own start. */
  lemma MatchesAreMatchesAt(p: Pattern, s: string)
    ensures forall k :: 0 <= k < |Matches(p, s)| ==>
      Matches(p, s)[k].start <= |s| && MatchAt(p, s, Matches(p, s)[k].start) == Some(Matches(p, s)[k])
  {
    AttemptsConsistent(p, s);
  }

  /** finditer skips no match: every position where the pattern matches lies in one of the
      matches found. */
  lemma MatchesMissNothing(p: Pattern, s: string, i: nat)
    requires i <= |s| && MatchAt(p, s, i).Some?
    ensures Covered(Matches(p, s), i)
  {
    var t := Attempts(p, s, |s| + 1);
    assert t[i].Some?;
    AttemptsConsistent(p, s);
    FindAllMissesNothing(t, 0, i);
  }
}
