/** The two JavaScript string operations the fixture parser relies on:
    `String.prototype.split` with a one-character separator and
    `String.prototype.indexOf` with a one-character argument. */
module JsStrings {

  /** `s.split(sep)`: the maximal pieces of `s` between occurrences of `sep`, including the
      empty pieces before a leading, after a trailing and between two adjacent separators.
      `"".split(sep)` is `[""]`, so there is always at least one piece. */
  function Split(s: string, sep: char): (r: seq<string>)
    ensures |r| >= 1
    decreases |s|
  {
    if s == [] then [[]]
    else if s[0] == sep then [[]] + Split(s[1..], sep)
    else
      var rest := Split(s[1..], sep);
      assert s == [s[0]] + s[1..];
      [[s[0]] + rest[0]] + rest[1..]
  }

  /** `parts.join(sep)`, the inverse of `Split`. */
  function Join(parts: seq<string>, sep: char): string
    requires |parts| >= 1
    decreases |parts|
  {
    if |parts| == 1 then parts[0] else parts[0] + [sep] + Join(parts[1..], sep)
  }

  /** `s.indexOf(c)`: the index of the first occurrence of `c`, or -1 when there is none
      (see `IndexOfFirst`). */
  function IndexOf(s: string, c: char): (r: int)
    ensures -1 <= r < |s|
  {
    if s == [] then -1
    else if s[0] == c then 0
    else
      var k := IndexOf(s[1..], c);
      if k == -1 then -1 else k + 1
  }

  /** `IndexOf` finds the first occurrence, and -1 means there is none. */
  lemma {:induction false} IndexOfFirst(s: string, c: char)
    ensures -1 <= IndexOf(s, c) < |s|
    ensures IndexOf(s, c) == -1 <==> c !in s
    ensures IndexOf(s, c) >= 0 ==> s[IndexOf(s, c)] == c && c !in s[..IndexOf(s, c)]
  {
    if s != [] && s[0] != c {
      IndexOfFirst(s[1..], c);
      var k := IndexOf(s[1..], c);
      assert s == [s[0]] + s[1..];
      if k != -1 {
        assert s[..k + 1] == [s[0]] + s[1..][..k];
      }
    }
  }

  /** The first occurrence of `c` in `k + [c] + v` is the one after `k` when `k` holds
      none. */
  lemma {:induction false} IndexOfAfter(k: string, c: char, v: string)
    requires c !in k
    ensures IndexOf(k + [c] + v, c) == |k|
    decreases |k|
  {
    var s := k + [c] + v;
    if k == [] {
      assert s[0] == c;
    } else {
      assert s[0] == k[0];
      assert s[1..] == k[1..] + [c] + v;
      IndexOfAfter(k[1..], c, v);
    }
  }

  /** Concatenation is associative; stated once so that proofs over pieces need not
      rediscover it element by element. */
  lemma AppendAssoc<T>(x: seq<T>, y: seq<T>, z: seq<T>)
    ensures x + (y + z) == (x + y) + z
  {
  }

  /** A leading separator starts a new, empty piece. */
  lemma SplitConsSeparator(t: string, sep: char)
    ensures Split([sep] + t, sep) == [[]] + Split(t, sep)
  {
    assert ([sep] + t)[1..] == t;
  }

  /** Any other leading character is prepended to the first piece of the rest. */
  lemma SplitConsOther(c: char, t: string, sep: char)
    requires c != sep
    ensures Split([c] + t, sep) == [[c] + Split(t, sep)[0]] + Split(t, sep)[1..]
  {
    assert ([c] + t)[1..] == t;
  }

  /** `JoinSplit` carried over a leading separator. */
  lemma JoinSplitSeparator(t: string, sep: char)
    requires Join(Split(t, sep), sep) == t
    ensures Join(Split([sep] + t, sep), sep) == [sep] + t
  {
    SplitConsSeparator(t, sep);
    var rest := Split(t, sep);
    assert ([[]] + rest)[1..] == rest;
  }

  /** `JoinSplit` carried over a leading character other than the separator. */
  lemma JoinSplitOther(c: char, t: string, sep: char)
    requires c != sep
    requires Join(Split(t, sep), sep) == t
    ensures Join(Split([c] + t, sep), sep) == [c] + t
  {
    SplitConsOther(c, t, sep);
    var rest := Split(t, sep);
    var r := [[c] + rest[0]] + rest[1..];
    if |rest| > 1 {
      assert r[0] == [c] + rest[0] && r[1..] == rest[1..];
      AppendAssoc([c], rest[0], [sep] + Join(rest[1..], sep));
      AppendAssoc(rest[0], [sep], Join(rest[1..], sep));
      AppendAssoc([c] + rest[0], [sep], Join(rest[1..], sep));
    }
  }

  /** Joining the pieces of a split gives back the original string. */
  lemma {:induction false} JoinSplit(s: string, sep: char)
    ensures Join(Split(s, sep), sep) == s
    decreases |s|
  {
    if s != [] {
      JoinSplit(s[1..], sep);
      assert s == [s[0]] + s[1..];
      if s[0] == sep {
        JoinSplitSeparator(s[1..], sep);
      } else {
        JoinSplitOther(s[0], s[1..], sep);
      }
    }
  }

  /** `SplitConcat` carried over a leading separator. */
  lemma SplitConcatSeparator(t: string, b: string, sep: char)
    requires Split(t + [sep] + b, sep) == Split(t, sep) + Split(b, sep)
    ensures Split([sep] + (t + [sep] + b), sep) == Split([sep] + t, sep) + Split(b, sep)
  {
    SplitConsSeparator(t, sep);
    SplitConsSeparator(t + [sep] + b, sep);
    var left, right := Split(t, sep), Split(b, sep);
    AppendAssoc([[]], left, right);
  }

  /** `SplitConcat` carried over a leading character other than the separator. */
  lemma SplitConcatOther(c: char, t: string, b: string, sep: char)
    requires c != sep
    requires Split(t + [sep] + b, sep) == Split(t, sep) + Split(b, sep)
    ensures Split([c] + (t + [sep] + b), sep) == Split([c] + t, sep) + Split(b, sep)
  {
    SplitConsOther(c, t, sep);
    SplitConsOther(c, t + [sep] + b, sep);
    var left, right := Split(t, sep), Split(b, sep);
    assert (left + right)[0] == left[0];
    assert (left + right)[1..] == left[1..] + right;
    AppendAssoc([[c] + left[0]], left[1..], right);
  }

  /** `SplitConcat` for a non-empty first part, given it for the first part's tail. */
  lemma SplitConcatStep(a: string, b: string, sep: char)
    requires a != []
    requires Split(a[1..] + [sep] + b, sep) == Split(a[1..], sep) + Split(b, sep)
    ensures Split(a + [sep] + b, sep) == Split(a, sep) + Split(b, sep)
  {
    if a[0] == sep {
      SplitConcatSeparator(a[1..], b, sep);
    } else {
      SplitConcatOther(a[0], a[1..], b, sep);
    }
    assert a == [a[0]] + a[1..];
    AppendAssoc([a[0]], a[1..] + [sep], b);
    assert a + [sep] == [a[0]] + (a[1..] + [sep]);
  }

  /** Splitting at one occurrence of the separator splits the pieces the same way. */
  lemma {:induction false} SplitConcat(a: string, b: string, sep: char)
    ensures Split(a + [sep] + b, sep) == Split(a, sep) + Split(b, sep)
    decreases |a|
  {
    if a == [] {
      SplitConsSeparator(b, sep);
      assert a + [sep] + b == [sep] + b;
    } else {
      SplitConcat(a[1..], b, sep);
      SplitConcatStep(a, b, sep);
    }
  }

  /** No piece of a split contains the separator. */
  lemma {:induction false} SplitPieces(s: string, sep: char)
    ensures forall k :: 0 <= k < |Split(s, sep)| ==> sep !in Split(s, sep)[k]
    decreases |s|
  {
    if s != [] {
      SplitPieces(s[1..], sep);
    }
  }

  /** A split has a single piece exactly when the separator does not occur, and that piece
      is then the whole string. */
  lemma {:induction false} SplitWhole(s: string, sep: char)
    ensures |Split(s, sep)| == 1 <==> sep !in s
    ensures sep !in s ==> Split(s, sep) == [s]
    decreases |s|
  {
    if s != [] {
      SplitWhole(s[1..], sep);
      assert s == [s[0]] + s[1..];
    }
  }

  /** The first piece of a split is the text before the first separator. */
  lemma {:induction false} SplitHead(s: string, sep: char)
    ensures Split(s, sep)[0] <= s
    ensures sep !in Split(s, sep)[0]
    ensures sep in s ==> |Split(s, sep)[0]| < |s| && s[|Split(s, sep)[0]|] == sep
    decreases |s|
  {
    if s != [] && s[0] != sep {
      SplitHead(s[1..], sep);
      assert s == [s[0]] + s[1..];
    }
  }

  /** Splitting a join of separator-free pieces gives back the pieces. */
  lemma {:induction false} SplitJoin(parts: seq<string>, sep: char)
    requires |parts| >= 1
    requires forall k :: 0 <= k < |parts| ==> sep !in parts[k]
    ensures Split(Join(parts, sep), sep) == parts
    decreases |parts|
  {
    if |parts| == 1 {
      SplitWhole(parts[0], sep);
    } else {
      SplitJoin(parts[1..], sep);
      SplitConcat(parts[0], Join(parts[1..], sep), sep);
      SplitWhole(parts[0], sep);
      assert parts == [parts[0]] + parts[1..];
    }
  }
}
