/** The string operations of the encoder: `str.split(sep, maxsplit)` and the
    `sep.join(parts)` that undoes it. */
module PyText {

  /** Index of the first occurrence of `c` in `s`, or `|s|` when there is none
      (FindIsFirst: nothing before it is `c`). */
  function Find(s: string, c: char): (i: nat)
    ensures i <= |s|
    ensures i < |s| ==> s[i] == c
  {
    FindFrom(s, c, 0)
  }

  /** The scan behind Find, starting at index `k`. */
  function FindFrom(s: string, c: char, k: nat): (i: nat)
    requires k <= |s|
    ensures k <= i <= |s|
    ensures i < |s| ==> s[i] == c
    decreases |s| - k
  {
    if k == |s| then k
    else if s[k] == c then k
    else FindFrom(s, c, k + 1)
  }

  lemma {:induction false} FindFromSkips(s: string, c: char, k: nat, j: nat)
    requires k <= |s| && k <= j < FindFrom(s, c, k)
    ensures s[j] != c
    decreases |s| - k
  {
    if j > k {
      FindFromSkips(s, c, k + 1, j);
    }
  }

  lemma FindIsFirst(s: string, c: char)
    ensures c !in s[..Find(s, c)]
  {
    var i := Find(s, c);
    forall j | 0 <= j < i
      ensures s[..i][j] != c
    {
      FindFromSkips(s, c, 0, j);
    }
  }

  lemma {:induction false} FindFromAfter(s: string, c: char, k: nat, n: nat)
    requires k <= n < |s| && s[n] == c
    requires forall j :: k <= j < n ==> s[j] != c
    ensures FindFrom(s, c, k) == n
    decreases n - k
  {
    if k < n {
      FindFromAfter(s, c, k + 1, n);
    }
  }

  /** The first `c` after a prefix free of `c` is the one that ends the prefix. */
  lemma FindAfter(a: string, t: string, c: char)
    requires c !in a
    ensures Find(a + [c] + t, c) == |a|
  {
    var s := a + [c] + t;
    forall j | 0 <= j < |a|
      ensures s[j] != c
    {
      assert s[j] == a[j] && a[j] in a;
    }
    FindFromAfter(s, c, 0, |a|);
  }

  /** `sep.join(parts)`: the parts with one separator between neighbours. */
  function Join(parts: seq<string>, sep: char): string
  {
    if |parts| == 0 then ""
    else if |parts| == 1 then parts[0]
    else parts[0] + [sep] + Join(parts[1..], sep)
  }

  lemma JoinCons(parts: seq<string>, sep: char)
    requires |parts| >= 2
    ensures Join(parts, sep) == parts[0] + [sep] + Join(parts[1..], sep)
  {
  }

  /** Number of occurrences of `c` in `s`. */
  function Count(s: string, c: char): nat
  {
    if |s| == 0 then 0
    else (if s[0] == c then 1 else 0) + Count(s[1..], c)
  }

  lemma {:induction false} CountAppend(a: string, b: string, c: char)
    ensures Count(a + b, c) == Count(a, c) + Count(b, c)
  {
    if |a| > 0 {
      assert (a + b)[1..] == a[1..] + b;
      CountAppend(a[1..], b, c);
    } else {
      assert a + b == b;
    }
  }

  lemma {:induction false} CountAbsent(s: string, c: char)
    requires c !in s
    ensures Count(s, c) == 0
  {
    if |s| > 0 {
      assert s[0] in s;
      assert forall k :: 0 <= k < |s| - 1 ==> s[1..][k] == s[k + 1];
      CountAbsent(s[1..], c);
    }
  }

  /** Python's `s.split(sep, maxsplit)` for a one-character separator: cut at
      the first `maxsplit` separators, left to right; the last piece keeps
      whatever separators remain. The result always has at least one piece
      (splitting "" gives [""]). SplitRejoins and SplitPiecesFree state what
      the pieces are. */
  function Split(s: string, sep: char, maxsplit: nat): (r: seq<string>)
    ensures 1 <= |r| <= maxsplit + 1
    decreases |s|
  {
    var i := Find(s, sep);
    if maxsplit == 0 || i == |s| then [s]
    else [s[..i]] + Split(s[i + 1..], sep, maxsplit - 1)
  }

  /** Putting the pieces of a split back together with the separator gives
      the text again. */
  lemma {:induction false} SplitRejoins(s: string, sep: char, maxsplit: nat)
    ensures Join(Split(s, sep, maxsplit), sep) == s
    decreases |s|
  {
    var i := Find(s, sep);
    if maxsplit > 0 && i < |s| {
      SplitRejoins(s[i + 1..], sep, maxsplit - 1);
      SplitRejoinsStep(s, sep, maxsplit);
    }
  }

  /** One step of SplitRejoins: the first cut puts back one separator. */
  lemma SplitRejoinsStep(s: string, sep: char, maxsplit: nat)
    requires maxsplit > 0 && Find(s, sep) < |s|
    requires Join(Split(s[Find(s, sep) + 1..], sep, maxsplit - 1), sep) == s[Find(s, sep) + 1..]
    ensures Join(Split(s, sep, maxsplit), sep) == s
  {
    var i := Find(s, sep);
    var head, tail := s[..i], s[i + 1..];
    var rest := Split(tail, sep, maxsplit - 1);
    assert Split(s, sep, maxsplit) == [head] + rest;
    assert ([head] + rest)[1..] == rest;
    JoinCons([head] + rest, sep);
    assert s == head + [sep] + tail;
  }

  /** Every piece but the last is free of the separator, and so is the last
      one unless all `maxsplit` cuts were made. */
  lemma {:induction false} SplitPiecesFree(s: string, sep: char, maxsplit: nat, k: nat)
    requires k < |Split(s, sep, maxsplit)|
    requires k < |Split(s, sep, maxsplit)| - 1 || |Split(s, sep, maxsplit)| < maxsplit + 1
    ensures sep !in Split(s, sep, maxsplit)[k]
    decreases |s|
  {
    var i := Find(s, sep);
    FindIsFirst(s, sep);
    if maxsplit > 0 && i == |s| {
      assert s[..i] == s;
    } else if maxsplit > 0 {
      var rest := Split(s[i + 1..], sep, maxsplit - 1);
      assert Split(s, sep, maxsplit) == [s[..i]] + rest;
      if k > 0 {
        SplitPiecesFree(s[i + 1..], sep, maxsplit - 1, k - 1);
      }
    }
  }

  /** Text without the separator is not split at all. */
  lemma SplitNoSeparator(s: string, sep: char, maxsplit: nat)
    requires sep !in s
    ensures Split(s, sep, maxsplit) == [s]
  {
    forall k | 0 <= k < |s|
      ensures s[k] != sep
    {
      assert s[k] in s;
    }
  }

  /** A leading piece that holds no separator is cut off by the first split. */
  lemma SplitPrefix(a: string, t: string, sep: char, maxsplit: nat)
    requires sep !in a && maxsplit > 0
    ensures Split(a + [sep] + t, sep, maxsplit) == [a] + Split(t, sep, maxsplit - 1)
  {
    var s := a + [sep] + t;
    FindAfter(a, t, sep);
    assert s[..|a|] == a;
    assert s[|a| + 1..] == t;
  }

  /** The first piece ends where the text's first separator is (or the text ends). */
  lemma SplitHead(a: string, t: string, sep: char, maxsplit: nat)
    requires sep !in a && maxsplit > 0
    requires t == [] || t[0] == sep
    ensures Split(a + t, sep, maxsplit)[0] == a
  {
    if t == [] {
      assert a + t == a;
      SplitNoSeparator(a, sep, maxsplit);
    } else {
      assert a + t == a + [sep] + t[1..];
      SplitPrefix(a, t[1..], sep, maxsplit);
    }
  }

  /** Splitting undoes joining, when no part holds the separator and there
      are at most `maxsplit + 1` parts. */
  lemma {:induction false} SplitJoin(parts: seq<string>, sep: char, maxsplit: nat)
    requires 1 <= |parts| <= maxsplit + 1
    requires forall k :: 0 <= k < |parts| ==> sep !in parts[k]
    ensures Split(Join(parts, sep), sep, maxsplit) == parts
    decreases |parts|
  {
    if |parts| == 1 {
      SplitNoSeparator(parts[0], sep, maxsplit);
    } else {
      var tail := parts[1..];
      assert forall k :: 0 <= k < |tail| ==> sep !in tail[k] by {
        forall k | 0 <= k < |tail| ensures sep !in tail[k] {
          assert tail[k] == parts[k + 1];
        }
      }
      SplitJoin(tail, sep, maxsplit - 1);
      SplitJoinStep(parts, sep, maxsplit);
    }
  }

  /** One step of SplitJoin: the first part is cut off, the rest splits as before. */
  lemma SplitJoinStep(parts: seq<string>, sep: char, maxsplit: nat)
    requires |parts| >= 2 && maxsplit > 0 && sep !in parts[0]
    requires Split(Join(parts[1..], sep), sep, maxsplit - 1) == parts[1..]
    ensures Split(Join(parts, sep), sep, maxsplit) == parts
  {
    var head, tail := parts[0], parts[1..];
    var joined := Join(tail, sep);
    assert Join(parts, sep) == head + [sep] + joined;
    SplitPrefix(head, joined, sep, maxsplit);
    assert [head] + tail == parts;
  }

  /** Cutting at the first separator removes exactly one occurrence. */
  lemma CountAtFirst(s: string, sep: char, i: nat)
    requires i < |s| && s[i] == sep && sep !in s[..i]
    ensures Count(s, sep) == Count(s[i + 1..], sep) + 1
  {
    assert s == s[..i] + ([sep] + s[i + 1..]);
    CountAppend(s[..i], [sep] + s[i + 1..], sep);
    CountAbsent(s[..i], sep);
    assert ([sep] + s[i + 1..])[1..] == s[i + 1..];
  }

  /** The number of pieces: one more than the number of separators, capped at
      `maxsplit + 1`. */
  lemma {:induction false} SplitLength(s: string, sep: char, maxsplit: nat)
    ensures |Split(s, sep, maxsplit)| ==
            if Count(s, sep) <= maxsplit then Count(s, sep) + 1 else maxsplit + 1
    decreases |s|
  {
    var i := Find(s, sep);
    FindIsFirst(s, sep);
    if i == |s| {
      assert s[..i] == s;
      CountAbsent(s, sep);
    } else {
      CountAtFirst(s, sep, i);
      if maxsplit > 0 {
        SplitLength(s[i + 1..], sep, maxsplit - 1);
      }
    }
  }

  /** With at least three cuts allowed, the third piece is whatever lies
      between the second separator and the next one (or the end). */
  lemma SplitThird(a: string, b: string, name: string, rest: string, sep: char, maxsplit: nat)
    requires sep !in a && sep !in b && sep !in name && maxsplit >= 3
    requires rest == [] || rest[0] == sep
    ensures var pieces := Split(a + [sep] + b + [sep] + name + rest, sep, maxsplit);
            |pieces| >= 3 && pieces[2] == name
  {
    var tail := name + rest;
    var middle := b + [sep] + tail;
    assert a + [sep] + b + [sep] + name + rest == a + [sep] + middle;
    SplitHead(name, rest, sep, maxsplit - 2);
    SplitPrefix(b, tail, sep, maxsplit - 1);
    SplitPrefix(a, middle, sep, maxsplit);
  }
}
