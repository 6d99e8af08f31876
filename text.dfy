/**
 * The handful of JavaScript string operations the build script relies on,
 * stated over `seq<char>`: `String.prototype.split` with a one-character
 * separator, `Array.prototype.join`, a global one-character `replace`,
 * `indexOf` on a substring and `slice(0, -1)`.
 */
module Text {

  /** Number of occurrences of `c` in `s`. */
  function Count(s: string, c: char): nat
  {
    if s == [] then 0 else (if s[0] == c then 1 else 0) + Count(s[1..], c)
  }

  lemma {:induction false} CountAppend(a: string, b: string, c: char)
    ensures Count(a + b, c) == Count(a, c) + Count(b, c)
  {
    if a == [] {
      assert a + b == b;
    } else {
      assert (a + b)[1..] == a[1..] + b;
      CountAppend(a[1..], b, c);
    }
  }

  lemma {:induction false} CountZero(s: string, c: char)
    ensures Count(s, c) == 0 <==> c !in s
  {
    if s != [] {
      CountZero(s[1..], c);
      assert s == [s[0]] + s[1..];
    }
  }

  /** `s.split(sep)` for a one-character `sep`: the pieces between the
      occurrences of `sep`; the empty string splits into one empty piece. */
  function Split(s: string, sep: char): (pieces: seq<string>)
    ensures |pieces| >= 1
  {
    if s == [] then [[]]
    else
      var rest := Split(s[1..], sep);
      if s[0] == sep then [[]] + rest
      else [[s[0]] + rest[0]] + rest[1..]
  }

  /** `xs.join(sep)`: the pieces with `sep` between neighbours; `[]` joins to "". */
  function Join(xs: seq<string>, sep: string): (r: string)
    ensures |xs| >= 1 ==> xs[0] <= r
  {
    if |xs| == 0 then []
    else if |xs| == 1 then xs[0]
    else xs[0] + sep + Join(xs[1..], sep)
  }

  /** A non-empty list joins to a text that ends with its last piece. */
  lemma {:induction false} JoinEndsWithLast(xs: seq<string>, sep: string)
    requires |xs| >= 1
    ensures |xs[|xs| - 1]| <= |Join(xs, sep)|
    ensures Join(xs, sep)[|Join(xs, sep)| - |xs[|xs| - 1]|..] == xs[|xs| - 1]
  {
    if |xs| > 1 {
      JoinEndsWithLast(xs[1..], sep);
    }
  }

  /** A string cut by `split` has one more piece than separators. */
  lemma {:induction false} SplitCount(s: string, sep: char)
    ensures |Split(s, sep)| == Count(s, sep) + 1
  {
    if s != [] {
      SplitCount(s[1..], sep);
    }
  }

  /** No piece of a split contains the separator. */
  lemma {:induction false} SplitPiecesFree(s: string, sep: char)
    ensures forall k :: 0 <= k < |Split(s, sep)| ==> sep !in Split(s, sep)[k]
  {
    if s != [] {
      SplitPiecesFree(s[1..], sep);
      var rest := Split(s[1..], sep);
      if s[0] != sep {
        assert sep !in [s[0]] + rest[0];
      }
    }
  }

  /** Joining the pieces of a split with the separator gives the string back. */
  lemma {:induction false} JoinSplit(s: string, sep: char)
    ensures Join(Split(s, sep), [sep]) == s
  {
    if s != [] {
      var tail := s[1..];
      JoinSplit(tail, sep);
      var rest := Split(tail, sep);
      assert s == [s[0]] + tail;
      if s[0] == sep {
        JoinEmptyHead(rest, [sep]);
      } else {
        JoinExtendHead(s[0], rest, [sep]);
      }
    }
  }

  lemma JoinEmptyHead(rest: seq<string>, sep: string)
    requires |rest| >= 1
    ensures Join([[]] + rest, sep) == sep + Join(rest, sep)
  {
    assert ([[]] + rest)[1..] == rest;
  }

  lemma JoinExtendHead(c: char, rest: seq<string>, sep: string)
    requires |rest| >= 1
    ensures Join([[c] + rest[0]] + rest[1..], sep) == [c] + Join(rest, sep)
  {
    var head := [c] + rest[0];
    var pieces := [head] + rest[1..];
    if |rest| == 1 {
      assert pieces == [head];
    } else {
      assert pieces[0] == head && pieces[1..] == rest[1..];
      var t := Join(rest[1..], sep);
      assert Join(pieces, sep) == head + sep + t;
      assert Join(rest, sep) == rest[0] + sep + t;
      assert head + sep + t == [c] + (rest[0] + sep + t);
    }
  }

  lemma {:induction false} SplitFree(s: string, sep: char)
    requires sep !in s
    ensures Split(s, sep) == [s]
  {
    if s != [] {
      SplitFree(s[1..], sep);
      assert s == [s[0]] + s[1..];
    }
  }

  lemma {:induction false} SplitPrefix(a: string, sep: char, t: string)
    requires sep !in a
    ensures Split(a + [sep] + t, sep) == [a] + Split(t, sep)
  {
    if a == [] {
      assert (a + [sep] + t)[1..] == t;
    } else {
      assert (a + [sep] + t)[1..] == a[1..] + [sep] + t;
      SplitPrefix(a[1..], sep, t);
      assert a == [a[0]] + a[1..];
    }
  }

  /** Splitting a join of separator-free pieces gives the pieces back
      (not for `[]`, which joins to "" and splits to `[""]`). */
  lemma {:induction false} SplitJoin(xs: seq<string>, sep: char)
    requires |xs| >= 1
    requires forall k :: 0 <= k < |xs| ==> sep !in xs[k]
    ensures Split(Join(xs, [sep]), sep) == xs
  {
    if |xs| == 1 {
      SplitFree(xs[0], sep);
    } else {
      var tail := xs[1..];
      assert forall k :: 0 <= k < |tail| ==> tail[k] == xs[k + 1];
      SplitJoin(tail, sep);
      var t := Join(tail, [sep]);
      assert Join(xs, [sep]) == xs[0] + [sep] + t;
      SplitPrefix(xs[0], sep, t);
      assert xs == [xs[0]] + tail;
    }
  }

  /** Global replacement of the character `c` by `rep`, as
      `s.replace(new RegExp(c, 'g'), rep)` does for a replacement without `$`. */
  function ReplaceAll(s: string, c: char, rep: string): (r: string)
    ensures c !in rep ==> c !in r
    ensures |r| == |s| + Count(s, c) * (|rep| - 1)
  {
    if s == [] then [] else (if s[0] == c then rep else [s[0]]) + ReplaceAll(s[1..], c, rep)
  }

  lemma {:induction false} ReplaceAllAppend(a: string, b: string, c: char, rep: string)
    ensures ReplaceAll(a + b, c, rep) == ReplaceAll(a, c, rep) + ReplaceAll(b, c, rep)
  {
    if a == [] {
      assert a + b == b;
    } else {
      assert (a + b)[1..] == a[1..] + b;
      ReplaceAllAppend(a[1..], b, c, rep);
    }
  }

  /** `s[i..i + |sub|]` is `sub`. */
  predicate MatchAt(s: string, sub: string, i: nat)
  {
    i + |sub| <= |s| && s[i..i + |sub|] == sub
  }

  function IndexFrom(s: string, sub: string, i: nat): (r: int)
    requires i <= |s|
    ensures r == -1 || (i <= r && MatchAt(s, sub, r))
    ensures forall j: nat :: i <= j && (r == -1 || j < r) ==> !MatchAt(s, sub, j)
    decreases |s| - i
  {
    if i + |sub| > |s| then -1
    else if s[i..i + |sub|] == sub then i
    else IndexFrom(s, sub, i + 1)
  }

  /** `s.indexOf(sub)`: the first offset at which `sub` occurs, or -1. */
  function IndexOf(s: string, sub: string): (r: int)
    ensures r == -1 || (0 <= r && MatchAt(s, sub, r))
    ensures forall j: nat :: (r == -1 || j < r) ==> !MatchAt(s, sub, j)
  {
    IndexFrom(s, sub, 0)
  }

  /** `s.indexOf(sub) != -1`. */
  predicate Contains(s: string, sub: string)
  {
    IndexOf(s, sub) != -1
  }

  lemma ContainsAt(s: string, sub: string, i: nat)
    requires MatchAt(s, sub, i)
    ensures Contains(s, sub)
  {
  }

  /** Every string that contains `p + q` also contains `p`. */
  lemma ContainsPrefixOf(s: string, p: string, q: string)
    ensures Contains(s, p + q) ==> Contains(s, p)
  {
    if Contains(s, p + q) {
      var i := IndexOf(s, p + q);
      assert s[i..i + |p|] == (p + q)[..|p|] == p;
      ContainsAt(s, p, i);
    }
  }

  /** `s.slice(0, -1)`: all but the last character; "" stays "". */
  function DropLast(s: string): (r: string)
    ensures r <= s
    ensures |r| == if s == [] then 0 else |s| - 1
  {
    if s == [] then [] else s[..|s| - 1]
  }

  /** The concatenation of the elements of `xss`, in order. */
  function Flatten(xss: seq<seq<string>>): seq<string>
  {
    if xss == [] then [] else xss[0] + Flatten(xss[1..])
  }
}
