/** String operations the reader relies on, stated the way Python's `str`
    defines them: `endswith`, `replace(pat, "")`, `sep.join(parts)` and the
    `<=` comparison that `sorted` uses on file names. */
module Text {

  /** Python's `s.endswith(suffix)`. */
  predicate EndsWith(s: string, suffix: string): (b: bool)
    ensures b <==> |suffix| <= |s| && s == s[..|s| - |suffix|] + suffix
  {
    |suffix| <= |s| && s[|s| - |suffix|..] == suffix
  }

  /** `pat` occurs in `s` starting at position `i`. */
  predicate OccursAt(s: string, pat: string, i: nat) {
    i + |pat| <= |s| && s[i..i + |pat|] == pat
  }

  /** Python's `s.replace(pat, "")`: scanning left to right, every
      non-overlapping occurrence of `pat` is dropped. An empty pattern
      leaves the string as it is. The string never grows, and it comes
      back unchanged exactly when `pat` does not occur in it. */
  function RemoveAll(s: string, pat: string): (r: string)
    ensures |r| <= |s|
    ensures pat != [] ==> (r == s <==> forall i: nat :: !OccursAt(s, pat, i))
    decreases |s|
  {
    if pat == [] || |s| < |pat| then s
    else if s[..|pat|] == pat then
      assert OccursAt(s, pat, 0);
      RemoveAll(s[|pat|..], pat)
    else
      NoOccurrenceStep(s, pat);
      var rest := RemoveAll(s[1..], pat);
      assert [s[0]] + rest == s <==> rest == s[1..] by {
        if [s[0]] + rest == s { assert rest == ([s[0]] + rest)[1..]; }
      }
      [s[0]] + rest
  }

  /** When `pat` does not occur at the start of `s`, it occurs nowhere in `s`
      exactly when it occurs nowhere in `s[1..]`. */
  lemma NoOccurrenceStep(s: string, pat: string)
    requires s != [] && !OccursAt(s, pat, 0)
    ensures (forall i: nat :: !OccursAt(s, pat, i)) <==> (forall i: nat :: !OccursAt(s[1..], pat, i))
  {
    forall i: nat ensures OccursAt(s[1..], pat, i) <==> OccursAt(s, pat, i + 1) {
      if i + 1 + |pat| <= |s| {
        assert s[1..][i..i + |pat|] == s[i + 1..i + 1 + |pat|];
      }
    }
    if forall i: nat :: !OccursAt(s[1..], pat, i) {
      forall i: nat ensures !OccursAt(s, pat, i) {
        if i > 0 { assert !OccursAt(s[1..], pat, i - 1); }
      }
    }
  }

  /** When the only occurrence of `pat` in `s` is its suffix, removing every
      occurrence is the same as cutting the suffix off. */
  lemma {:induction false} RemoveAllSuffixOnly(s: string, pat: string)
    requires pat != [] && EndsWith(s, pat)
    requires forall i: nat :: i < |s| - |pat| ==> !OccursAt(s, pat, i)
    ensures RemoveAll(s, pat) == s[..|s| - |pat|]
    decreases |s|
  {
    if |s| == |pat| {
      assert s[..|pat|] == pat;
      assert RemoveAll(s[|pat|..], pat) == [];
    } else {
      assert !OccursAt(s, pat, 0);
      assert s[..|pat|] != pat;
      var t := s[1..];
      assert t[|t| - |pat|..] == s[|s| - |pat|..];
      forall i: nat | i < |t| - |pat| ensures !OccursAt(t, pat, i) {
        assert !OccursAt(s, pat, i + 1);
      }
      RemoveAllSuffixOnly(t, pat);
      assert [s[0]] + t[..|t| - |pat|] == s[..|s| - |pat|];
    }
  }

  /** The total length of a list of strings. */
  function TotalLength(parts: seq<string>): nat
    decreases |parts|
  {
    if parts == [] then 0 else |parts[0]| + TotalLength(parts[1..])
  }

  /** Python's `sep.join(parts)`: the parts in order with one separator
      between each two, so `|parts| - 1` separators in all. */
  function Join(sep: string, parts: seq<string>): (r: string)
    ensures parts != [] ==> |r| == TotalLength(parts) + (|parts| - 1) * |sep|
    ensures parts == [] ==> r == ""
    decreases |parts|
  {
    if |parts| == 0 then ""
    else if |parts| == 1 then parts[0]
    else parts[0] + sep + Join(sep, parts[1..])
  }

  /** Python's `s.split(c)` for a one-character separator: the pieces
      between the separators, always at least one, none holding `c`. It is
      the inverse against which `Join`'s round-trip lemmas are proved. */
  function SplitOn(s: string, c: char): (r: seq<string>)
    ensures |r| >= 1
    ensures forall k :: 0 <= k < |r| ==> c !in r[k]
    decreases |s|
  {
    if s == [] then [""]
    else
      var rest := SplitOn(s[1..], c);
      if s[0] == c then [""] + rest
      else [[s[0]] + rest[0]] + rest[1..]
  }

  /** Joining with one more leading part. */
  lemma JoinCons(sep: string, p: string, parts: seq<string>)
    requires parts != []
    ensures Join(sep, [p] + parts) == p + sep + Join(sep, parts)
  {
  }

  /** Splitting a string and joining the pieces back gives the string. */
  lemma {:induction false} JoinSplitOn(s: string, c: char)
    ensures Join([c], SplitOn(s, c)) == s
    decreases |s|
  {
    if s != [] {
      var rest := SplitOn(s[1..], c);
      JoinSplitOn(s[1..], c);
      if s[0] == c {
        JoinCons([c], "", rest);
        assert [c] + s[1..] == s;
      } else if |rest| == 1 {
        assert SplitOn(s, c) == [[s[0]] + rest[0]];
        assert [s[0]] + s[1..] == s;
      } else {
        JoinCons([c], [s[0]] + rest[0], rest[1..]);
        assert [rest[0]] + rest[1..] == rest;
        JoinCons([c], rest[0], rest[1..]);
        assert [s[0]] + s[1..] == s;
      }
    }
  }

  /** A piece without the separator, followed by the separator, splits off
      as the first piece. */
  lemma {:induction false} SplitOnPrefix(p: string, c: char, u: string)
    requires c !in p
    ensures SplitOn(p + [c] + u, c) == [p] + SplitOn(u, c)
    decreases |p|
  {
    if p == [] {
      assert p + [c] + u == [c] + u;
      assert ([c] + u)[1..] == u;
    } else {
      var s := p + [c] + u;
      assert s[0] == p[0] && s[1..] == p[1..] + [c] + u;
      SplitOnPrefix(p[1..], c, u);
      assert [p[0]] + p[1..] == p;
    }
  }

  /** A string without the separator splits into itself alone. */
  lemma {:induction false} SplitOnAbsent(p: string, c: char)
    requires c !in p
    ensures SplitOn(p, c) == [p]
    decreases |p|
  {
    if p != [] {
      SplitOnAbsent(p[1..], c);
      assert [p[0]] + p[1..] == p;
    }
  }

  /** Joining non-empty lists of separator-free parts and splitting them
      again gives the parts back: `Join` loses nothing on such lists. */
  lemma {:induction false} SplitOnJoin(parts: seq<string>, c: char)
    requires parts != []
    requires forall k :: 0 <= k < |parts| ==> c !in parts[k]
    ensures SplitOn(Join([c], parts), c) == parts
    decreases |parts|
  {
    if |parts| == 1 {
      SplitOnAbsent(parts[0], c);
    } else {
      SplitOnJoin(parts[1..], c);
      SplitOnPrefix(parts[0], c, Join([c], parts[1..]));
      assert [parts[0]] + parts[1..] == parts;
    }
  }

  /** Python's `a <= b` on strings: lexicographic by code point, a proper
      prefix coming first. */
  predicate LexLe(a: string, b: string): (r: bool)
    ensures |a| <= |b| && a == b[..|a|] ==> r
    ensures r && |a| > 0 ==> |b| > 0 && a[0] <= b[0]
    decreases |a|
  {
    |a| == 0 || (|b| > 0 && (a[0] < b[0] || (a[0] == b[0] && LexLe(a[1..], b[1..]))))
  }

  /** A common prefix does not change the order of two strings. */
  lemma {:induction false} LexLeCommonPrefix(p: string, a: string, b: string)
    ensures LexLe(p + a, p + b) <==> LexLe(a, b)
    decreases |p|
  {
    if p == [] {
      assert p + a == a && p + b == b;
    } else {
      assert (p + a)[1..] == p[1..] + a && (p + b)[1..] == p[1..] + b;
      LexLeCommonPrefix(p[1..], a, b);
    }
  }

  lemma {:induction false} LexLeTotal(a: string, b: string)
    ensures LexLe(a, b) || LexLe(b, a)
    decreases |a|
  {
    if |a| > 0 && |b| > 0 && a[0] == b[0] {
      LexLeTotal(a[1..], b[1..]);
    }
  }

  lemma {:induction false} LexLeAntisymmetric(a: string, b: string)
    requires LexLe(a, b) && LexLe(b, a)
    ensures a == b
    decreases |a|
  {
    if |a| > 0 {
      LexLeAntisymmetric(a[1..], b[1..]);
      assert a == [a[0]] + a[1..] && b == [b[0]] + b[1..];
    }
  }

  lemma {:induction false} LexLeTransitive(a: string, b: string, c: string)
    requires LexLe(a, b) && LexLe(b, c)
    ensures LexLe(a, c)
    decreases |a|
  {
    if |a| > 0 && a[0] == b[0] && b[0] == c[0] {
      LexLeTransitive(a[1..], b[1..], c[1..]);
    }
  }
}
