/** Small string toolkit shared by the models: Python's `str.lower` (ASCII part),
    string ordering, `os.path.basename`, `str.split`, `str.join`, `str.replace`
    with an empty replacement, `startswith` / `endswith`. */
module Text {

  datatype Option<T> = None | Some(value: T)

  // ---------------------------------------------------------------------------
  // Lower-casing and ordering

  /** ASCII lower-casing of one character. */
  function LowerChar(c: char): char
  {
    if 'A' <= c <= 'Z' then (c as int + 32) as char else c
  }

  /** `s.lower()` restricted to ASCII letters. */
  function Lower(s: string): (r: string)
    ensures |r| == |s|
    ensures forall i :: 0 <= i < |s| ==> r[i] == LowerChar(s[i])
  {
    if s == [] then [] else [LowerChar(s[0])] + Lower(s[1..])
  }

  /** Python's `a <= b` on strings: lexicographic by code point, a proper prefix first. */
  predicate LexLe(a: string, b: string)
  {
    if a == [] then true
    else if b == [] then false
    else if a[0] != b[0] then a[0] < b[0]
    else LexLe(a[1..], b[1..])
  }

  lemma {:induction false} LexLeTotal(a: string, b: string)
    ensures LexLe(a, b) || LexLe(b, a)
  {
    if a != [] && b != [] && a[0] == b[0] {
      LexLeTotal(a[1..], b[1..]);
    }
  }

  lemma {:induction false} LexLeTrans(a: string, b: string, c: string)
    requires LexLe(a, b) && LexLe(b, c)
    ensures LexLe(a, c)
  {
    if a != [] && b != [] && c != [] && a[0] == b[0] && b[0] == c[0] {
      LexLeTrans(a[1..], b[1..], c[1..]);
    }
  }

  // ---------------------------------------------------------------------------
  // Prefixes, suffixes, occurrences

  predicate StartsWith(s: string, p: string)
  {
    |p| <= |s| && s[..|p|] == p
  }

  predicate EndsWith(s: string, p: string)
  {
    |p| <= |s| && s[|s| - |p|..] == p
  }

  /** `pat` occurs in `s` starting at index `i`. */
  predicate OccursAt(s: string, pat: string, i: nat)
  {
    i + |pat| <= |s| && s[i..i + |pat|] == pat
  }

  /** `pat` occurs nowhere in `s`. */
  predicate NoOccurrence(s: string, pat: string)
  {
    forall i: nat :: i <= |s| ==> !OccursAt(s, pat, i)
  }

  /** `s.replace(pat, "")`: every non-overlapping occurrence of `pat`, found from
      the left, is removed. */
  function RemoveAll(s: string, pat: string): (r: string)
    requires pat != []
    ensures |r| <= |s|
    decreases |s|
  {
    if |s| < |pat| then s
    else if s[..|pat|] == pat then RemoveAll(s[|pat|..], pat)
    else [s[0]] + RemoveAll(s[1..], pat)
  }

  /** Where no occurrence starts, the first character is kept. */
  lemma RemoveAllSkips(s: string, pat: string)
    requires pat != [] && |s| >= |pat| && !OccursAt(s, pat, 0)
    ensures RemoveAll(s, pat) == [s[0]] + RemoveAll(s[1..], pat)
  {
    assert s[..|pat|] != pat;
  }

  /** An occurrence in a tail is an occurrence in the whole string, one place on. */
  lemma OccursInTail(s: string, pat: string, i: nat)
    requires |s| > 0
    ensures OccursAt(s[1..], pat, i) <==> OccursAt(s, pat, i + 1)
  {
    if i + |pat| <= |s[1..]| {
      assert s[1..][i..i + |pat|] == s[i + 1..i + 1 + |pat|];
    }
  }

  /** A prefix in which no occurrence of `pat` starts (even one running into `b`)
      is kept as it is. */
  lemma {:induction false} RemoveAllKeepsPrefix(a: string, b: string, pat: string)
    requires pat != []
    requires forall i: nat :: i < |a| ==> !OccursAt(a + b, pat, i)
    ensures RemoveAll(a + b, pat) == a + RemoveAll(b, pat)
    decreases |a|
  {
    if a != [] {
      var s := a + b;
      assert s[1..] == a[1..] + b;
      forall i: nat | i < |a[1..]|
        ensures !OccursAt(a[1..] + b, pat, i)
      {
        OccursInTail(s, pat, i);
      }
      RemoveAllKeepsPrefix(a[1..], b, pat);
      RemoveAllKeepsFirst(a, b, pat);
    } else {
      assert a + b == b;
    }
  }

  /** One character of the kept prefix, given the rest. */
  lemma RemoveAllKeepsFirst(a: string, b: string, pat: string)
    requires pat != [] && a != []
    requires !OccursAt(a + b, pat, 0)
    requires RemoveAll(a[1..] + b, pat) == a[1..] + RemoveAll(b, pat)
    ensures RemoveAll(a + b, pat) == a + RemoveAll(b, pat)
  {
    var s := a + b;
    if |s| >= |pat| {
      calc {
        RemoveAll(s, pat);
        { RemoveAllSkips(s, pat); }
        [s[0]] + RemoveAll(s[1..], pat);
        { assert s[1..] == a[1..] + b; }
        [a[0]] + RemoveAll(a[1..] + b, pat);
        [a[0]] + (a[1..] + RemoveAll(b, pat));
        { assert [a[0]] + a[1..] == a; }
        a + RemoveAll(b, pat);
      }
    } else {
      assert RemoveAll(b, pat) == b;
    }
  }

  /** Removing a pattern from a string that does not contain it changes nothing. */
  lemma RemoveAllAbsent(s: string, pat: string)
    requires pat != [] && NoOccurrence(s, pat)
    ensures RemoveAll(s, pat) == s
  {
    assert s + [] == s;
    RemoveAllKeepsPrefix(s, [], pat);
  }

  // ---------------------------------------------------------------------------
  // Splitting and joining

  /** The index of the first `c` in `s`, or `|s|` when there is none. */
  function FirstIndex(s: string, c: char): (k: nat)
    ensures k <= |s|
    ensures k < |s| ==> s[k] == c
  {
    if s == [] then 0
    else if s[0] == c then 0
    else 1 + FirstIndex(s[1..], c)
  }

  /** No `c` comes before the first one. */
  lemma {:induction false} FirstIndexFirst(s: string, c: char)
    ensures forall i :: 0 <= i < FirstIndex(s, c) ==> s[i] != c
  {
    if s != [] && s[0] != c {
      FirstIndexFirst(s[1..], c);
      assert forall i :: 1 <= i < FirstIndex(s, c) ==> s[i] == s[1..][i - 1];
    }
  }

  /** The first `c` of `a + x`: the one in `a` if there is one, else the first in `x`. */
  lemma {:induction false} FirstIndexAppend(a: string, x: string, c: char)
    ensures FirstIndex(a + x, c) == if FirstIndex(a, c) < |a| then FirstIndex(a, c) else |a| + FirstIndex(x, c)
  {
    if a == [] {
      assert a + x == x;
    } else {
      assert (a + x)[0] == a[0];
      assert (a + x)[1..] == a[1..] + x;
      FirstIndexAppend(a[1..], x, c);
    }
  }

  /** A string without `c` has its first `c` at its end. */
  lemma {:induction false} FirstIndexAbsent(s: string, c: char)
    requires c !in s
    ensures FirstIndex(s, c) == |s|
  {
    if s != [] {
      assert s[0] in s;
      assert c !in s[1..] by {
        forall i | 0 <= i < |s[1..]| ensures s[1..][i] != c { assert s[1..][i] in s; }
      }
      FirstIndexAbsent(s[1..], c);
    }
  }

  /** `s.split(sep)`: the pieces between separators, empty pieces included;
      `"".split(sep)` is `[""]`. */
  function Split(s: string, sep: char): (r: seq<string>)
    ensures |r| >= 1
    decreases |s|
  {
    var k := FirstIndex(s, sep);
    if k == |s| then [s] else [s[..k]] + Split(s[k + 1..], sep)
  }

  /** `sep.join(parts)`. */
  function Join(sep: char, parts: seq<string>): string
  {
    if parts == [] then []
    else if |parts| == 1 then parts[0]
    else parts[0] + [sep] + Join(sep, parts[1..])
  }

  /** Joining the pieces of a split gives the string back. */
  lemma {:induction false} JoinSplit(s: string, sep: char)
    ensures Join(sep, Split(s, sep)) == s
    decreases |s|
  {
    var k := FirstIndex(s, sep);
    if k < |s| {
      var rest := Split(s[k + 1..], sep);
      JoinSplit(s[k + 1..], sep);
      assert Split(s, sep) == [s[..k]] + rest;
      assert Join(sep, Split(s, sep)) == s[..k] + [sep] + Join(sep, rest);
      assert s == s[..k] + [s[k]] + s[k + 1..];
    }
  }

  /** A string without the separator splits into itself alone. */
  lemma SplitNoSeparator(s: string, sep: char)
    requires sep !in s
    ensures Split(s, sep) == [s]
  {
    FirstIndexAbsent(s, sep);
  }

  /** A separator after a piece that contains none splits off that piece. */
  lemma SplitAtSeparator(a: string, b: string, sep: char)
    requires sep !in a
    ensures Split(a + [sep] + b, sep) == [a] + Split(b, sep)
  {
    var s := a + [sep] + b;
    assert s == a + ([sep] + b);
    FirstIndexAbsent(a, sep);
    FirstIndexAppend(a, [sep] + b, sep);
    assert FirstIndex(s, sep) == |a|;
    assert s[..|a|] == a;
    assert s[|a| + 1..] == b;
  }

  /** A separator before a last piece that contains none splits off that piece. */
  lemma {:induction false} SplitBeforeLast(a: string, b: string, sep: char)
    requires sep !in b
    ensures Split(a + [sep] + b, sep) == Split(a, sep) + [b]
    decreases |a|
  {
    var k := FirstIndex(a, sep);
    if k < |a| {
      SplitBeforeLast(a[k + 1..], b, sep);
      SplitBeforeLastStep(a, b, sep);
    } else {
      assert sep !in a by {
        FirstIndexFirst(a, sep);
        forall i | 0 <= i < |a| ensures a[i] != sep { }
      }
      SplitAtSeparator(a, b, sep);
      SplitNoSeparator(a, sep);
      SplitNoSeparator(b, sep);
    }
  }

  /** The first part ends at the first separator. */
  lemma SplitFirst(s: string, sep: char)
    requires FirstIndex(s, sep) < |s|
    ensures Split(s, sep) == [s[..FirstIndex(s, sep)]] + Split(s[FirstIndex(s, sep) + 1..], sep)
  {
  }

  lemma SplitBeforeLastStep(a: string, b: string, sep: char)
    requires FirstIndex(a, sep) < |a|
    requires Split(a[FirstIndex(a, sep) + 1..] + [sep] + b, sep) == Split(a[FirstIndex(a, sep) + 1..], sep) + [b]
    ensures Split(a + [sep] + b, sep) == Split(a, sep) + [b]
  {
    var s := a + [sep] + b;
    var k := FirstIndex(a, sep);
    var piece := a[..k];
    var r := Split(a[k + 1..], sep);
    calc {
      Split(s, sep);
      { assert s == a + ([sep] + b);
        FirstIndexAppend(a, [sep] + b, sep);
        SplitFirst(s, sep); }
      [s[..k]] + Split(s[k + 1..], sep);
      { assert s[..k] == piece;
        assert s[k + 1..] == a[k + 1..] + [sep] + b; }
      [piece] + Split(a[k + 1..] + [sep] + b, sep);
      [piece] + (r + [b]);
      ([piece] + r) + [b];
      Split(a, sep) + [b];
    }
  }

  // ---------------------------------------------------------------------------
  // Basenames

  /** `os.path.basename(p)` on POSIX: the part after the last `/`. */
  function Basename(p: string): (r: string)
    ensures '/' !in r
    ensures |r| <= |p| && p[|p| - |r|..] == r
    ensures |r| < |p| ==> p[|p| - |r| - 1] == '/'
  {
    if p == [] then []
    else if p[|p| - 1] == '/' then []
    else Basename(p[..|p| - 1]) + [p[|p| - 1]]
  }
}
