/** The pieces of Python's `str` and `list` behaviour the scripts rely on:
    `count`, `index`, `split` with and without `maxsplit`, slicing `[0:stop]`
    and `sep.join`, stated over `string` (a `seq<char>`). */
module Text {

  function Min(a: int, b: int): int { if a <= b then a else b }

  function Max(a: int, b: int): int { if a <= b then b else a }

  /** The position of the first `c` in `s`, or `|s|` when there is none. */
  function Find(s: string, c: char): (i: nat)
    ensures i <= |s|
    ensures i < |s| ==> s[i] == c
  {
    if s == [] then 0
    else if s[0] == c then 0
    else 1 + Find(s[1..], c)
  }

  /** No `c` comes before the first one. */
  lemma {:induction false} FindFirst(s: string, c: char)
    ensures forall k :: 0 <= k < Find(s, c) ==> s[k] != c
  {
    if s != [] && s[0] != c {
      FindFirst(s[1..], c);
      forall k | 1 <= k < Find(s, c) ensures s[k] != c {
        assert s[k] == s[1..][k - 1];
      }
    }
  }

  /** `s.count(c)` for a one-character argument: the positions holding `c`. */
  function Count(s: string, c: char): (n: nat)
    ensures n <= |s|
  {
    if s == [] then 0 else (if s[0] == c then 1 else 0) + Count(s[1..], c)
  }

  /** No occurrence to count is the same as no position holding `c`. */
  lemma {:induction false} CountZero(s: string, c: char)
    ensures Count(s, c) == 0 <==> forall k :: 0 <= k < |s| ==> s[k] != c
  {
    if s != [] {
      CountZero(s[1..], c);
      assert forall k :: 1 <= k < |s| ==> s[k] == s[1..][k - 1];
    }
  }

  /** `s.index(c)`: the position of the first `c`; Python raises when there is none. */
  function IndexOf(s: string, c: char): (i: nat)
    requires Count(s, c) > 0
    ensures i < |s| && s[i] == c
    ensures forall k :: 0 <= k < i ==> s[k] != c
  {
    CountZero(s, c);
    FindFirst(s, c);
    Find(s, c)
  }

  /** `s.split(sep)` with no limit: every piece between separators, empty pieces
      included; one piece more than there are separators. A separator starts a
      new piece, any other character joins the first piece of the rest. */
  function Split(s: string, sep: char): (parts: seq<string>)
    ensures |parts| == Count(s, sep) + 1
  {
    if s == [] then [""]
    else
      var rest := Split(s[1..], sep);
      if s[0] == sep then [""] + rest else [[s[0]] + rest[0]] + rest[1..]
  }

  /** `s.split(sep, n)` for `n >= 0`: at most `n` leftmost splits; the rest stays whole. */
  function SplitMax(s: string, sep: char, n: nat): (parts: seq<string>)
    ensures |parts| == Min(n, Count(s, sep)) + 1
  {
    if n == 0 || s == [] then [s]
    else if s[0] == sep then [""] + SplitMax(s[1..], sep, n - 1)
    else
      var rest := SplitMax(s[1..], sep, n);
      [[s[0]] + rest[0]] + rest[1..]
  }

  /** `s.split(sep, maxsplit)`: a negative `maxsplit` means no limit. */
  function PySplit(s: string, sep: char, maxsplit: int): seq<string>
  {
    if maxsplit < 0 then Split(s, sep) else SplitMax(s, sep, maxsplit)
  }

  /** The slice `xs[0:stop]`, with Python's clipping and negative `stop`. */
  function Take<T>(xs: seq<T>, stop: int): (r: seq<T>)
    ensures r <= xs
  {
    if stop >= 0 then xs[..Min(stop, |xs|)] else xs[..Max(0, |xs| + stop)]
  }

  /** `sep.join(parts)`. */
  function Join(parts: seq<string>, sep: char): string
  {
    if |parts| == 0 then ""
    else if |parts| == 1 then parts[0]
    else parts[0] + [sep] + Join(parts[1..], sep)
  }

  /** A separator in front: an empty first piece. */
  lemma JoinEmptyHead(rest: seq<string>, sep: char)
    requires |rest| >= 1
    ensures Join([""] + rest, sep) == [sep] + Join(rest, sep)
  {
    assert ([""] + rest)[1..] == rest;
  }

  /** A character in front of the first piece is in front of the whole join. */
  lemma JoinGrowHead(c: char, parts: seq<string>, sep: char)
    requires |parts| >= 1
    ensures Join([[c] + parts[0]] + parts[1..], sep) == [c] + Join(parts, sep)
  {
    var ps := [[c] + parts[0]] + parts[1..];
    if |parts| > 1 {
      assert ps[1..] == parts[1..];
    }
  }

  /** Counting behind one more character. */
  lemma CountCons(c: char, q: string, sep: char)
    ensures Count([c] + q, sep) == (if c == sep then 1 else 0) + Count(q, sep)
  {
    assert ([c] + q)[1..] == q;
  }

  /** No piece of `s.split(sep)` holds the separator. */
  lemma {:induction false} SplitPieces(s: string, sep: char)
    ensures forall k :: 0 <= k < |Split(s, sep)| ==> Count(Split(s, sep)[k], sep) == 0
  {
    if s != [] {
      var rest := Split(s[1..], sep);
      SplitPieces(s[1..], sep);
      if s[0] != sep {
        CountCons(s[0], rest[0], sep);
        assert forall k :: 1 <= k < |Split(s, sep)| ==> Split(s, sep)[k] == rest[k];
      } else {
        assert forall k :: 1 <= k < |Split(s, sep)| ==> Split(s, sep)[k] == rest[k - 1];
      }
    }
  }

  /** `p` is the prefix of `s` that holds exactly `k - 1` separators and ends
      just before the `k`-th one, or is all of `s` when `s` has only `k - 1`. */
  ghost predicate PrefixUpTo(s: string, sep: char, p: string, k: nat)
  {
    && p <= s
    && Count(p, sep) == k - 1
    && (k <= Count(s, sep) ==> |p| < |s| && s[|p|] == sep)
    && (k == Count(s, sep) + 1 ==> p == s)
  }

  /** The first `k` pieces of `s.split(sep)`, joined again, are that prefix. */
  lemma {:induction false} JoinSplitPrefix(s: string, sep: char, k: nat)
    requires 1 <= k <= Count(s, sep) + 1
    ensures PrefixUpTo(s, sep, Join(Split(s, sep)[..k], sep), k)
  {
    if s == [] {
      assert Split(s, sep)[..k] == [""];
    } else {
      var t := s[1..];
      var rest := Split(t, sep);
      if s[0] == sep && k == 1 {
        assert Split(s, sep)[..k] == [""];
      } else if s[0] == sep {
        JoinSplitPrefix(t, sep, k - 1);
        assert Split(s, sep)[..k] == [""] + rest[..k - 1];
        JoinEmptyHead(rest[..k - 1], sep);
        PrefixBehind(s, sep, Join(rest[..k - 1], sep), k - 1);
      } else {
        JoinSplitPrefix(t, sep, k);
        var front := rest[..k];
        assert Split(s, sep)[..k] == [[s[0]] + front[0]] + front[1..];
        JoinGrowHead(s[0], front, sep);
        PrefixBehind(s, sep, Join(front, sep), k);
      }
    }
  }

  /** A prefix of the rest of `s`, with the first character of `s` put back. */
  lemma PrefixBehind(s: string, sep: char, q: string, j: nat)
    requires s != [] && 1 <= j && PrefixUpTo(s[1..], sep, q, j)
    ensures PrefixUpTo(s, sep, [s[0]] + q, if s[0] == sep then j + 1 else j)
  {
    CountCons(s[0], q, sep);
    var p := [s[0]] + q;
    if |q| < |s[1..]| {
      assert s[|p|] == s[1..][|q|];
    }
  }

  /** Splitting and joining again gives back the text. */
  lemma JoinSplit(s: string, sep: char)
    ensures Join(Split(s, sep), sep) == s
  {
    JoinSplitPrefix(s, sep, Count(s, sep) + 1);
    assert Split(s, sep)[..Count(s, sep) + 1] == Split(s, sep);
  }

  /** Joining pieces free of the separator and splitting again gives back the pieces
      (for at least one piece: `[]` and `[""]` both join to `""`). */
  lemma {:induction false} SplitJoin(parts: seq<string>, sep: char)
    requires |parts| >= 1
    requires forall k :: 0 <= k < |parts| ==> Count(parts[k], sep) == 0
    ensures Split(Join(parts, sep), sep) == parts
    decreases |parts|, |parts[0]|
  {
    var h := parts[0];
    if h == [] && |parts| == 1 {
    } else if h == [] {
      var s := Join(parts, sep);
      assert s == [sep] + Join(parts[1..], sep);
      assert s[1..] == Join(parts[1..], sep);
      SplitJoin(parts[1..], sep);
      assert parts == [""] + parts[1..];
    } else {
      var parts' := ShortenHead(parts, sep);
      var s := Join(parts, sep);
      assert s[1..] == Join(parts', sep);
      SplitJoin(parts', sep);
    }
  }

  /** The same pieces with the first character of the first one moved in front. */
  lemma ShortenHead(parts: seq<string>, sep: char) returns (parts': seq<string>)
    requires |parts| >= 1 && parts[0] != []
    requires forall k :: 0 <= k < |parts| ==> Count(parts[k], sep) == 0
    ensures |parts'| == |parts| && |parts'[0]| == |parts[0]| - 1
    ensures forall k :: 0 <= k < |parts'| ==> Count(parts'[k], sep) == 0
    ensures parts[0][0] != sep
    ensures Join(parts, sep) == [parts[0][0]] + Join(parts', sep)
    ensures parts == [[parts[0][0]] + parts'[0]] + parts'[1..]
  {
    var h := parts[0];
    CountCons(h[0], h[1..], sep);
    assert h == [h[0]] + h[1..];
    parts' := [h[1..]] + parts[1..];
    assert parts'[1..] == parts[1..];
    forall k | 0 <= k < |parts'| ensures Count(parts'[k], sep) == 0 {
      if k > 0 {
        assert parts'[k] == parts[k];
      }
    }
    JoinGrowHead(h[0], parts', sep);
    assert [[h[0]] + parts'[0]] + parts'[1..] == parts;
  }

  /** At most `n` splits: the first `min(n, count + 1)` pieces of `s.split(sep, n)`
      are those of the unlimited split. */
  lemma {:induction false} SplitMaxAgrees(s: string, sep: char, n: nat, k: nat)
    requires k < Min(n, Count(s, sep) + 1)
    ensures SplitMax(s, sep, n)[k] == Split(s, sep)[k]
  {
    if s != [] {
      var t := s[1..];
      if s[0] == sep {
        if k > 0 {
          SplitMaxAgrees(t, sep, n - 1, k - 1);
          AgreeBehindSeparator(s, sep, n, k);
        }
      } else {
        SplitMaxAgrees(t, sep, n, k);
        AgreeBehindCharacter(s, sep, n, k);
      }
    }
  }

  /** The step of `SplitMaxAgrees` past a leading separator: one split is used. */
  lemma AgreeBehindSeparator(s: string, sep: char, n: nat, k: nat)
    requires s != [] && s[0] == sep && 1 <= k < n
    requires k - 1 < Count(s[1..], sep) + 1 && k - 1 < Min(n - 1, Count(s[1..], sep)) + 1
    requires SplitMax(s[1..], sep, n - 1)[k - 1] == Split(s[1..], sep)[k - 1]
    ensures SplitMax(s, sep, n)[k] == Split(s, sep)[k]
  {
    var a := SplitMax(s[1..], sep, n - 1);
    var b := Split(s[1..], sep);
    assert SplitMax(s, sep, n) == [""] + a;
    assert Split(s, sep) == [""] + b;
  }

  /** The step of `SplitMaxAgrees` past any other character: the first piece grows. */
  lemma AgreeBehindCharacter(s: string, sep: char, n: nat, k: nat)
    requires s != [] && s[0] != sep && k < n
    requires k < Count(s[1..], sep) + 1 && k < Min(n, Count(s[1..], sep)) + 1
    requires SplitMax(s[1..], sep, n)[k] == Split(s[1..], sep)[k]
    ensures SplitMax(s, sep, n)[k] == Split(s, sep)[k]
  {
    var a := SplitMax(s[1..], sep, n);
    var b := Split(s[1..], sep);
    assert SplitMax(s, sep, n) == [[s[0]] + a[0]] + a[1..];
    assert Split(s, sep) == [[s[0]] + b[0]] + b[1..];
  }

  /** `sep.join(s.split(sep, d)[0:d])` for `d >= 0` joins the first `min(d, count + 1)`
      pieces of the unlimited split (the off-by-one lives here). */
  lemma SplitTake(s: string, sep: char, d: nat)
    ensures Take(PySplit(s, sep, d), d) == Split(s, sep)[..Min(d, Count(s, sep) + 1)]
  {
    SplitMaxPrefix(s, sep, d);
    TakeFirst(SplitMax(s, sep, d), d, Min(d, Count(s, sep) + 1));
  }

  /** `xs[0:stop]` for a `stop` within bounds. */
  lemma TakeFirst<T>(xs: seq<T>, stop: nat, m: nat)
    requires m == Min(stop, |xs|)
    ensures Take(xs, stop) == xs[..m]
  {
  }

  /** The first `min(n, count + 1)` pieces of both splits are the same. */
  lemma SplitMaxPrefix(s: string, sep: char, n: nat)
    ensures Min(n, |SplitMax(s, sep, n)|) == Min(n, Count(s, sep) + 1)
    ensures SplitMax(s, sep, n)[..Min(n, Count(s, sep) + 1)] == Split(s, sep)[..Min(n, Count(s, sep) + 1)]
  {
    var m := Min(n, Count(s, sep) + 1);
    forall k | 0 <= k < m ensures SplitMax(s, sep, n)[k] == Split(s, sep)[k] {
      SplitMaxAgrees(s, sep, n, k);
    }
    SamePrefix(SplitMax(s, sep, n), Split(s, sep), m);
  }

  lemma SamePrefix(a: seq<string>, b: seq<string>, m: nat)
    requires m <= |a| && m <= |b|
    requires forall k :: 0 <= k < m ==> a[k] == b[k]
    ensures a[..m] == b[..m]
  {
  }

  predicate Distinct<T(==)>(xs: seq<T>)
  {
    forall i, j :: 0 <= i < j < |xs| ==> xs[i] != xs[j]
  }

  /** `lines` lists every element of `s` once and nothing else, in some order. */
  ghost predicate Enumerates(lines: seq<string>, s: set<string>)
  {
    Distinct(lines) && forall x :: x in lines <==> x in s
  }

  /** Iterating a Python set to join it: each element once, in an order the
      model leaves open (the choice `:|`). */
  method ToLines(s: set<string>) returns (lines: seq<string>)
    ensures Enumerates(lines, s)
    ensures |lines| == |s|
  {
    lines := [];
    var rest := s;
    while rest != {}
      invariant forall x :: x in s <==> x in rest || x in lines
      invariant forall x :: x in rest ==> x !in lines
      invariant Distinct(lines)
      invariant |lines| + |rest| == |s|
      decreases |rest|
    {
      var x :| x in rest;
      lines := lines + [x];
      rest := rest - {x};
    }
  }
}
