/** Character classes and string helpers shared by the extractor and the emitter:
    the ASCII part of Python's `\w`, `\s` and case folding, maximal runs of a class,
    literal search, `str.strip` and `str.join`, and `Split`, the reader that undoes a join. */
module Text {

  datatype Option<T> = None | Some(value: T)

  /** Python's `\w` over ASCII: letters, digits and the underscore. */
  predicate IsWordChar(c: char) {
    ('a' <= c <= 'z') || ('A' <= c <= 'Z') || ('0' <= c <= '9') || c == '_'
  }

  /** Python's `\s` (and `str.isspace`) over ASCII: TAB, LF, VT, FF, CR, the four
      information separators 0x1C-0x1F, and SPACE. */
  predicate IsSpace(c: char) {
    var n := c as int;
    (9 <= n <= 13) || (28 <= n <= 31) || n == 32
  }

  /** ASCII lower-casing, as `str.lower` does on ASCII letters: no upper-case letter is left,
      letters stay letters and everything else is kept, so word characters and whitespace
      keep their class. */
  function ToLower(c: char): (r: char)
    ensures !('A' <= r <= 'Z')
    ensures ('a' <= r <= 'z') <==> ('a' <= c <= 'z' || 'A' <= c <= 'Z')
    ensures IsWordChar(r) == IsWordChar(c) && IsSpace(r) == IsSpace(c)
  {
    if 'A' <= c <= 'Z' then (c as int + 32) as char else c
  }

  /** The character classes the fixed patterns are built from. */
  datatype CharClass =
    | Word     // \w
    | Space    // \s
    | Bound    // [\w\s\-], the characters of a range bound
    | NotSep   // [^;,]

  predicate InClass(c: char, k: CharClass) {
    match k
    case Word => IsWordChar(c)
    case Space => IsSpace(c)
    case Bound => IsWordChar(c) || IsSpace(c) || c == '-'
    case NotSep => c != ';' && c != ','
  }

  /** Every character of s[lo..hi] belongs to class k. */
  predicate AllIn(s: string, lo: nat, hi: nat, k: CharClass) {
    lo <= hi <= |s| && forall m {:trigger InClass(s[m], k)} :: lo <= m < hi ==> InClass(s[m], k)
  }

  /** The end of the longest run of class-k characters starting at i: what a greedy
      `k*` consumes when it is not forced to give characters back. */
  function RunEnd(s: string, i: nat, k: CharClass): (e: nat)
    requires i <= |s|
    ensures i <= e <= |s| && AllIn(s, i, e, k)
    ensures e == |s| || !InClass(s[e], k)
    decreases |s| - i
  {
    if i < |s| && InClass(s[i], k) then RunEnd(s, i + 1, k) else i
  }

  /** A run of class k that cannot be extended is the one RunEnd finds. */
  lemma RunEndIsMaximalRun(s: string, i: nat, e: nat, k: CharClass)
    requires AllIn(s, i, e, k) && (e == |s| || !InClass(s[e], k))
    ensures RunEnd(s, i, k) == e
  {
  }

  /** s holds lit at position i, character for character. */
  predicate LiteralAt(s: string, i: nat, lit: string) {
    i + |lit| <= |s| && s[i..i + |lit|] == lit
  }

  /** s holds lit at position i, ignoring ASCII case (`re.IGNORECASE`). */
  predicate CiLiteralAt(s: string, i: nat, lit: string) {
    i + |lit| <= |s| && forall m :: 0 <= m < |lit| ==> ToLower(s[i + m]) == ToLower(lit[m])
  }

  /** The first position at or after `from` where lit occurs. */
  function Find(s: string, lit: string, from: nat): (r: Option<nat>)
    requires |lit| > 0 && from <= |s|
    ensures r.Some? ==> from <= r.value && LiteralAt(s, r.value, lit)
    ensures forall k :: from <= k && (r.None? || k < r.value) ==> !LiteralAt(s, k, lit)
    decreases |s| - from
  {
    if from + |lit| > |s| then None
    else if s[from..from + |lit|] == lit then Some(from)
    else Find(s, lit, from + 1)
  }

  /** Find returns the first occurrence: one at k with none between `from` and k. */
  lemma {:induction false} FindFirst(s: string, lit: string, from: nat, k: nat)
    requires |lit| > 0 && from <= k && LiteralAt(s, k, lit)
    requires forall j :: from <= j < k ==> !LiteralAt(s, j, lit)
    ensures Find(s, lit, from) == Some(k)
    decreases k - from
  {
    if from < k {
      FindFirst(s, lit, from + 1, k);
    }
  }

  /** The end of s[lo..hi] once trailing whitespace is removed. */
  function TrimmedEnd(s: string, lo: nat, hi: nat): (b: nat)
    requires lo <= hi <= |s|
    ensures lo <= b <= hi && AllIn(s, b, hi, Space)
    ensures b == lo || !IsSpace(s[b - 1])
    decreases hi - lo
  {
    if lo < hi && IsSpace(s[hi - 1]) then TrimmedEnd(s, lo, hi - 1) else hi
  }

  /** t neither starts nor ends with whitespace. */
  predicate Stripped(t: string) {
    t == [] || (!IsSpace(t[0]) && !IsSpace(t[|t| - 1]))
  }

  /** t is s with whitespace added on both sides: s is a slice of t and everything around it is whitespace. */
  ghost predicate Padded(t: string, s: string) {
    exists a :: 0 <= a && a + |s| <= |t| && s == t[a..a + |s|] && AllIn(t, 0, a, Space) && AllIn(t, a + |s|, |t|, Space)
  }

  /** Python's `str.strip()`: the slice of t left once leading and trailing whitespace are removed. */
  function Strip(t: string): (r: string)
    ensures Stripped(r) && Padded(t, r)
  {
    var a := RunEnd(t, 0, Space);
    var b := TrimmedEnd(t, a, |t|);
    assert AllIn(t, 0, a, Space) && AllIn(t, a + |t[a..b]|, |t|, Space);
    t[a..b]
  }

  /** Stripping is idempotent. */
  lemma StripStripped(t: string)
    requires Stripped(t)
    ensures Strip(t) == t
  {
    var r := Strip(t);
    var a :| 0 <= a && a + |r| <= |t| && r == t[a..a + |r|] && AllIn(t, 0, a, Space) && AllIn(t, a + |r|, |t|, Space);
    if t != [] {
      assert !InClass(t[0], Space) && !InClass(t[|t| - 1], Space);
      assert a == 0 && a + |r| == |t|;
    }
  }

  /** Every character left by Strip was in t, so a class all of t belongs to covers the result. */
  lemma StripKeepsClass(t: string, k: CharClass)
    requires AllIn(t, 0, |t|, k)
    ensures AllIn(Strip(t), 0, |Strip(t)|, k)
  {
    var r := Strip(t);
    var a :| 0 <= a && a + |r| <= |t| && r == t[a..a + |r|] && AllIn(t, 0, a, Space) && AllIn(t, a + |r|, |t|, Space);
    forall m | 0 <= m < |r|
      ensures InClass(r[m], k)
    {
      assert r[m] == t[a + m];
      assert InClass(t[a + m], k);
    }
  }

  /** A run of class k, cut out of its string, is all class k. */
  lemma AllInSlice(s: string, lo: nat, hi: nat, k: CharClass)
    requires AllIn(s, lo, hi, k)
    ensures AllIn(s[lo..hi], 0, hi - lo, k)
  {
    forall m | 0 <= m < hi - lo
      ensures InClass(s[lo..hi][m], k)
    {
      assert s[lo..hi][m] == s[lo + m];
      assert InClass(s[lo + m], k);
    }
  }

  /** A stretch of s where lit starts nowhere, cut out of s, holds no occurrence of lit. */
  lemma SliceFreeOfLiteral(s: string, lo: nat, hi: nat, lit: string)
    requires lo <= hi <= |s| && |lit| > 0
    requires forall k :: lo <= k < hi ==> !LiteralAt(s, k, lit)
    ensures forall j :: !LiteralAt(s[lo..hi], j, lit)
  {
    var u := s[lo..hi];
    forall j: nat
      ensures !LiteralAt(u, j, lit)
    {
      if j + |lit| <= |u| {
        var w, v := u[j..j + |lit|], s[lo + j..lo + j + |lit|];
        forall m | 0 <= m < |lit|
          ensures w[m] == v[m]
        {
          assert w[m] == u[j + m] == s[lo + j + m];
        }
        assert w == v;
        assert !LiteralAt(s, lo + j, lit);
      }
    }
  }

  /** A run of class k keeps its class once text is put around it. */
  lemma AllInEmbedded(pre: string, w: string, post: string, k: CharClass)
    requires AllIn(w, 0, |w|, k)
    ensures AllIn(pre + w + post, |pre|, |pre| + |w|, k)
  {
    var s := pre + w + post;
    forall m | |pre| <= m < |pre| + |w|
      ensures InClass(s[m], k)
    {
      assert s[m] == w[m - |pre|];
      assert InClass(w[m - |pre|], k);
    }
  }

  /** Two strings of class k joined are of class k. */
  lemma AllInConcat(a: string, b: string, k: CharClass)
    requires AllIn(a, 0, |a|, k) && AllIn(b, 0, |b|, k)
    ensures AllIn(a + b, 0, |a + b|, k)
  {
    var s := a + b;
    forall m | 0 <= m < |s|
      ensures InClass(s[m], k)
    {
      if m < |a| {
        assert s[m] == a[m];
        assert InClass(a[m], k);
      } else {
        assert s[m] == b[m - |a|];
        assert InClass(b[m - |a|], k);
      }
    }
  }

  /** Word characters are neither `;` nor `,`. */
  lemma WordIsNotSep(w: string)
    requires AllIn(w, 0, |w|, Word)
    ensures AllIn(w, 0, |w|, NotSep)
  {
    forall m | 0 <= m < |w|
      ensures InClass(w[m], NotSep)
    {
      assert InClass(w[m], Word);
    }
  }

  /** Taking one element more, then dropping it again, gives the shorter prefix. */
  lemma PrefixOfPrefix<T>(s: seq<T>, k: nat)
    requires k < |s|
    ensures s[..k + 1][..k] == s[..k] && s[..k + 1][k] == s[k]
  {
  }

  /** The first k characters of a slice are the slice of the first k. */
  lemma PrefixOfSlice(s: string, lo: nat, hi: nat, k: nat)
    requires lo + k <= hi <= |s|
    ensures s[lo..hi][..k] == s[lo..lo + k]
  {
  }

  /** Python's `sep.join(items)`. */
  function Join(items: seq<string>, sep: string): string
    decreases |items|
  {
    if |items| == 0 then ""
    else if |items| == 1 then items[0]
    else items[0] + sep + Join(items[1..], sep)
  }

  /** Plain concatenation of the pieces, as repeated `+=` builds it. */
  function Concat(pieces: seq<string>): string
    decreases |pieces|
  {
    if pieces == [] then "" else pieces[0] + Concat(pieces[1..])
  }

  lemma {:induction false} ConcatAppend(pieces: seq<string>, last: string)
    ensures Concat(pieces + [last]) == Concat(pieces) + last
    decreases |pieces|
  {
    if pieces == [] {
      assert [] + [last] == [last];
    } else {
      assert (pieces + [last])[1..] == pieces[1..] + [last];
      ConcatAppend(pieces[1..], last);
    }
  }

  /** Text appended after an occurrence leaves it in place. */
  lemma LiteralExtends(a: string, b: string, i: nat, x: string)
    requires LiteralAt(a, i, x)
    ensures LiteralAt(a + b, i, x)
  {
    assert (a + b)[i..i + |x|] == a[i..i + |x|];
  }

  /** Four more pieces appended after an occurrence leave it in place. */
  lemma LiteralSurvivesAppends(s: string, i: nat, x: string, b1: string, b2: string, b3: string, b4: string)
    requires LiteralAt(s, i, x)
    ensures LiteralAt(s + b1 + b2 + b3 + b4, i, x)
  {
    LiteralExtends(s, b1, i, x);
    LiteralExtends(s + b1, b2, i, x);
    LiteralExtends(s + b1 + b2, b3, i, x);
    LiteralExtends(s + b1 + b2 + b3, b4, i, x);
  }

  /** An occurrence inside an occurrence. */
  lemma LiteralWithin(s: string, i: nat, x: string, j: nat, y: string)
    requires LiteralAt(s, i, x) && LiteralAt(x, j, y)
    ensures LiteralAt(s, i + j, y)
  {
    var u, v := s[i + j..i + j + |y|], s[i..i + |x|];
    forall m | 0 <= m < |y|
      ensures u[m] == y[m]
    {
      assert u[m] == s[i + j + m] == v[j + m] == x[j + m] == x[j..j + |y|][m];
    }
  }

  /** The left part of a concatenation is at its start; the right part at its end. */
  lemma LiteralParts(a: string, b: string)
    ensures LiteralAt(a + b, 0, a) && LiteralAt(a + b, |a|, b)
  {
    assert (a + b)[..|a|] == a;
    assert (a + b)[|a|..|a| + |b|] == b;
  }

  /** Python's `s.split(sep)`: the pieces between the non-overlapping occurrences of sep,
      found left to right. */
  function Split(s: string, sep: string): (r: seq<string>)
    requires |sep| > 0
    ensures |r| > 0
    decreases |s|
  {
    match Find(s, sep, 0)
    case None => [s]
    case Some(k) => [s[..k]] + Split(s[k + |sep|..], sep)
  }

  /** No item holds the first character of sep, so no occurrence of sep can start inside one. */
  predicate FreeOfSeparator(items: seq<string>, sep: string)
    requires |sep| > 0
  {
    forall k, m :: 0 <= k < |items| && 0 <= m < |items[k]| ==> items[k][m] != sep[0]
  }

  /** Splitting a join gives back the joined items, provided the separator cannot be
      mistaken for part of an item. */
  lemma {:induction false} SplitJoin(items: seq<string>, sep: string)
    requires |sep| > 0 && |items| > 0
    requires FreeOfSeparator(items, sep)
    ensures Split(Join(items, sep), sep) == items
    decreases |items|
  {
    var x := items[0];
    if |items| == 1 {
      forall k | 0 <= k
        ensures !LiteralAt(x, k, sep)
      {
        if k + |sep| <= |x| {
          assert x[k..k + |sep|][0] == x[k];
        }
      }
      assert Find(x, sep, 0).None?;
    } else {
      var rest := Join(items[1..], sep);
      var s := x + sep + rest;
      assert Join(items, sep) == s;
      forall k | 0 <= k < |x|
        ensures !LiteralAt(s, k, sep)
      {
        if k + |sep| <= |s| {
          assert s[k..k + |sep|][0] == s[k] == x[k];
        }
      }
      assert s[|x|..|x| + |sep|] == sep;
      FindFirst(s, sep, 0, |x|);
      assert s[..|x|] == x;
      assert s[|x| + |sep|..] == rest;
      assert FreeOfSeparator(items[1..], sep) by {
        forall k, m | 0 <= k < |items[1..]| && 0 <= m < |items[1..][k]|
          ensures items[1..][k][m] != sep[0]
        {
          assert items[1..][k] == items[k + 1];
        }
      }
      SplitJoin(items[1..], sep);
      assert [x] + items[1..] == items;
    }
  }

  /** A concatenation of pieces that each end in sep is the join of the pieces without
      it, followed by one empty piece. */
  lemma {:induction false} ConcatOfTerminated(bodies: seq<string>, sep: string)
    ensures Concat(Terminate(bodies, sep)) == Join(bodies + [""], sep)
    decreases |bodies|
  {
    if bodies != [] {
      ConcatOfTerminated(bodies[1..], sep);
      assert (bodies + [""])[1..] == bodies[1..] + [""];
    }
  }

  /** Each piece followed by sep. */
  function Terminate(bodies: seq<string>, sep: string): (r: seq<string>)
    ensures |r| == |bodies| && forall k :: 0 <= k < |bodies| ==> r[k] == bodies[k] + sep
    decreases |bodies|
  {
    if bodies == [] then [] else [bodies[0] + sep] + Terminate(bodies[1..], sep)
  }
}
