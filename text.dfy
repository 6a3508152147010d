/** Joining lines with a separator (Python's `"\n".join`, JavaScript's `join('\n')`) and its inverse. */
module Text {
  /** The parts with one separator between each neighbouring pair. */
  function Join(parts: seq<string>, sep: char): string
  {
    if |parts| == 0 then ""
    else if |parts| == 1 then parts[0]
    else parts[0] + [sep] + Join(parts[1..], sep)
  }

  /** The pieces of `s` between separators (Python's `str.split` with one separator). */
  function Split(s: string, sep: char): (r: seq<string>)
    ensures |r| >= 1
    ensures forall i | 0 <= i < |r| :: sep !in r[i]
  {
    if s == [] then [""]
    else
      var rest := Split(s[1..], sep);
      if s[0] == sep then [""] + rest else [[s[0]] + rest[0]] + rest[1..]
  }

  /** `t` occurs in `s` as a contiguous piece. */
  predicate Contains(s: string, t: string) {
    exists i, j | 0 <= i <= j <= |s| :: s[i..j] == t
  }

  /** Splitting `a + t` when `a` holds no separator glues `a` to the first piece of `t`. */
  lemma {:induction false} SplitPrefix(a: string, t: string, sep: char)
    requires sep !in a
    ensures Split(a + t, sep) == [a + Split(t, sep)[0]] + Split(t, sep)[1..]
  {
    if a != [] {
      assert (a + t)[0] == a[0] && (a + t)[1..] == a[1..] + t;
      SplitPrefix(a[1..], t, sep);
      assert [a[0]] + (a[1..] + Split(t, sep)[0]) == a + Split(t, sep)[0];
    } else {
      var r := Split(t, sep);
      assert a + t == t && a + r[0] == r[0];
      assert [r[0]] + r[1..] == r;
    }
  }

  /** Splitting joined parts gives the parts back when none holds the separator. */
  lemma {:induction false} SplitJoin(parts: seq<string>, sep: char)
    requires |parts| >= 1
    requires forall i | 0 <= i < |parts| :: sep !in parts[i]
    ensures Split(Join(parts, sep), sep) == parts
  {
    if |parts| == 1 {
      SplitPrefix(parts[0], [], sep);
      assert parts[0] + [] == parts[0];
      assert parts == [parts[0]];
    } else {
      var t := [sep] + Join(parts[1..], sep);
      assert Join(parts, sep) == parts[0] + t;
      SplitPrefix(parts[0], t, sep);
      SplitJoin(parts[1..], sep);
      assert t[1..] == Join(parts[1..], sep);
      assert t[0] == sep;
      assert Split(t, sep) == [""] + parts[1..];
      assert parts[0] + Split(t, sep)[0] == parts[0];
      assert Split(t, sep)[1..] == parts[1..];
      assert [parts[0]] + parts[1..] == parts;
    }
  }

  /** Joining the pieces of a split restores the text. */
  lemma {:induction false} JoinSplit(s: string, sep: char)
    ensures Join(Split(s, sep), sep) == s
  {
    if s != [] {
      var rest := Split(s[1..], sep);
      JoinSplit(s[1..], sep);
      if s[0] == sep {
        assert Split(s, sep)[1..] == rest;
      } else {
        var r := Split(s, sep);
        assert r[1..] == rest[1..];
        if |rest| > 1 {
          assert Join(rest, sep) == rest[0] + [sep] + Join(rest[1..], sep);
        }
      }
    }
  }

  /** Joining splits at any boundary between parts. */
  lemma {:induction false} JoinAt(parts: seq<string>, sep: char, k: nat)
    requires 0 < k < |parts|
    ensures Join(parts, sep) == Join(parts[..k], sep) + [sep] + Join(parts[k..], sep)
  {
    if k > 1 {
      JoinAt(parts[1..], sep, k - 1);
      assert parts[1..][..k - 1] == parts[..k][1..];
      assert parts[1..][k - 1..] == parts[k..];
    }
  }

  /** A piece placed between two others is contained in the whole. */
  lemma ContainsMiddle(s: string, a: string, t: string, b: string)
    requires s == a + t + b
    ensures Contains(s, t)
  {
    assert s[|a|..|a| + |t|] == t;
  }

  /** A part that has parts on both sides appears in the joined text as a whole line. */
  lemma JoinContainsLine(parts: seq<string>, sep: char, k: nat)
    requires 0 < k < |parts| - 1
    ensures Contains(Join(parts, sep), [sep] + parts[k] + [sep])
  {
    JoinAt(parts, sep, k);
    var before := Join(parts[..k], sep);
    var rest := Join(parts[k + 1..], sep);
    assert parts[k..][1..] == parts[k + 1..];
    assert Join(parts[k..], sep) == parts[k] + [sep] + rest;
    ContainsMiddle(Join(parts, sep), before, [sep] + parts[k] + [sep], rest);
  }

  /** Every part appears in the joined text. */
  lemma JoinContainsPart(parts: seq<string>, sep: char, k: nat)
    requires k < |parts|
    ensures Contains(Join(parts, sep), parts[k])
  {
    var before := if k == 0 then [] else Join(parts[..k], sep) + [sep];
    var rest := if k == |parts| - 1 then [] else [sep] + Join(parts[k + 1..], sep);
    if k > 0 {
      JoinAt(parts, sep, k);
    }
    if k < |parts| - 1 {
      assert parts[k..][1..] == parts[k + 1..];
    }
    assert Join(parts[k..], sep) == parts[k] + rest;
    ContainsMiddle(Join(parts, sep), before, parts[k], rest);
  }

  lemma ContainsTrans(s: string, t: string, u: string)
    requires Contains(s, t) && Contains(t, u)
    ensures Contains(s, u)
  {
    var i, j :| 0 <= i <= j <= |s| && s[i..j] == t;
    var k, l :| 0 <= k <= l <= |t| && t[k..l] == u;
    assert forall m | 0 <= m < l - k :: s[i + k + m] == t[k + m] == u[m];
    assert s[i + k..i + l] == u;
  }

  /** A common prefix cancels. */
  lemma CancelPrefix(p: string, x: string, y: string)
    requires p + x == p + y
    ensures x == y
  {
    assert x == (p + x)[|p|..] && y == (p + y)[|p|..];
  }

  /** A common suffix cancels. */
  lemma CancelSuffix(x: string, y: string, q: string)
    requires x + q == y + q
    ensures x == y
  {
    assert |x| == |y|;
    assert x == (x + q)[..|x|] && y == (y + q)[..|y|];
  }

  /** In `a + [sep] + x` with `sep` not in `a`, the first separator is at index `|a|`. */
  lemma FirstSeparator(a: string, x: string, sep: char)
    requires sep !in a
    ensures (a + [sep] + x)[|a|] == sep
    ensures forall i | 0 <= i < |a| :: (a + [sep] + x)[i] != sep
  {
  }

  /** The first separator splits a text uniquely when neither head holds it. */
  lemma CancelAtSeparator(a: string, x: string, b: string, y: string, sep: char)
    requires sep !in a && sep !in b
    requires a + [sep] + x == b + [sep] + y
    ensures a == b && x == y
  {
    var s := a + [sep] + x;
    FirstSeparator(a, x, sep);
    FirstSeparator(b, y, sep);
    assert |a| == |b|;
    assert a == s[..|a|] && b == (b + [sep] + y)[..|b|];
    assert x == s[|a| + 1..] && y == (b + [sep] + y)[|b| + 1..];
  }

  /** The separator after `a` is the last one when `x` holds none. */
  lemma LastSeparator(a: string, x: string, sep: char)
    requires sep !in x
    ensures (a + [sep] + x)[|a|] == sep
    ensures forall i | |a| < i < |a| + 1 + |x| :: (a + [sep] + x)[i] != sep
  {
    forall i | |a| < i < |a| + 1 + |x| ensures (a + [sep] + x)[i] != sep {
      assert (a + [sep] + x)[i] == x[i - |a| - 1];
    }
  }

  /** The last separator splits a text uniquely when neither tail holds it. */
  lemma CancelAtLastSeparator(a: string, x: string, b: string, y: string, sep: char)
    requires sep !in x && sep !in y
    requires a + [sep] + x == b + [sep] + y
    ensures a == b && x == y
  {
    var s := a + [sep] + x;
    LastSeparator(a, x, sep);
    LastSeparator(b, y, sep);
    assert |a| == |b|;
    assert a == s[..|a|] && b == (b + [sep] + y)[..|b|];
    assert x == s[|a| + 1..] && y == (b + [sep] + y)[|b| + 1..];
  }

  /** A separator found further right leaves the shorter tail with fewer separators. */
  lemma LaterSeparatorFewer(a: string, x: string, b: string, y: string, sep: char)
    requires a + [sep] + x == b + [sep] + y
    ensures |a| < |b| ==> multiset(x)[sep] > multiset(y)[sep]
  {
    if |a| < |b| {
      var s := b + [sep] + y;
      var mid := s[|a| + 1..|b|];
      assert x == (a + [sep] + x)[|a| + 1..];
      assert s[|b|..|b| + 1] == [sep] && s[|b| + 1..] == y;
      assert x == mid + s[|b|..|b| + 1] + s[|b| + 1..];
      assert multiset(mid + [sep] + y) == multiset(mid) + multiset([sep]) + multiset(y);
    }
  }

  /** A text `a<sep>x` splits uniquely when the tails hold equally many separators. */
  lemma CancelAtCountedSeparator(a: string, x: string, b: string, y: string, sep: char)
    requires multiset(x)[sep] == multiset(y)[sep]
    requires a + [sep] + x == b + [sep] + y
    ensures a == b && x == y
  {
    var s := a + [sep] + x;
    LaterSeparatorFewer(a, x, b, y, sep);
    LaterSeparatorFewer(b, y, a, x, sep);
    assert |a| == |b|;
    assert a == s[..|a|] && b == (b + [sep] + y)[..|b|];
    assert x == s[|a| + 1..] && y == (b + [sep] + y)[|b| + 1..];
  }
}
