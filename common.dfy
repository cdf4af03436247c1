/** Values and string operations shared by the three scripts: Python's slice
    semantics, the exceptions the scripts can raise, decimal formatting of a
    count and `str.join`. */
module Common {

  datatype Option<+T> = None | Some(value: T)

  /** Exceptions the modelled code can raise, and that the model returns instead. */
  datatype Fault =
    | ZeroDivision                  // `num_of_union / num_of_entities` with no entity
    | NoObjectsToConcatenate        // `pd.concat([])`
    | MissingColumn(name: string)   // a `KeyError` on a frame column

  datatype Result<+T> = Ok(value: T) | Raise(fault: Fault)

  predicate StartsWith<T(==)>(s: seq<T>, prefix: seq<T>) {
    |prefix| <= |s| && s[..|prefix|] == prefix
  }

  predicate EndsWith<T(==)>(s: seq<T>, suffix: seq<T>) {
    |suffix| <= |s| && s[|s| - |suffix|..] == suffix
  }

  predicate NoDuplicates<T(==)>(s: seq<T>) {
    forall i, j | 0 <= i < j < |s| :: s[i] != s[j]
  }

  /** Python's normalisation of one bound of a slice of a sequence of length `n`:
      a negative bound counts from the end, and the result is clamped to [0, n]. */
  function SliceBound(i: int, n: nat): (b: nat)
    ensures b <= n
    ensures 0 <= i <= n ==> b == i
    ensures i < 0 && 0 <= i + n ==> b == i + n
    ensures i + n < 0 ==> b == 0
    ensures n < i ==> b == n
  {
    if i < 0 then (if i + n < 0 then 0 else i + n)
    else if i > n then n
    else i
  }

  /** Python's `s[i:j]`, for any integers `i` and `j`. */
  function Slice<T>(s: seq<T>, i: int, j: int): (r: seq<T>)
    ensures |r| <= |s|
    ensures 0 <= i <= j <= |s| ==> r == s[i..j]
    ensures SliceBound(j, |s|) <= SliceBound(i, |s|) ==> r == []
  {
    var lo, hi := SliceBound(i, |s|), SliceBound(j, |s|);
    if lo < hi then s[lo..hi] else []
  }

  /** `s[1:]` drops the first element, and of the empty sequence leaves it empty. */
  lemma DropFirst<T>(s: seq<T>)
    ensures Slice(s, 1, |s|) == if s == [] then [] else s[1..]
  {
  }

  /** `s[:-k]` drops the last `k` elements, or everything when there are fewer. */
  lemma DropLast<T>(s: seq<T>, k: int)
    requires 0 < k
    ensures Slice(s, 0, -k) == if |s| <= k then [] else s[..|s| - k]
  {
  }

  function DigitChar(d: nat): (c: char)
    requires d < 10
    ensures '0' <= c <= '9'
  {
    (('0' as int) + d) as char
  }

  predicate AllDigits(s: string) {
    forall i | 0 <= i < |s| :: '0' <= s[i] <= '9'
  }

  /** Python's `str(n)` (and an f-string) for a non-negative integer. */
  function Decimal(n: nat): (s: string)
    ensures |s| > 0 && AllDigits(s)
    ensures n >= 10 <==> |s| > 1
    ensures |s| > 1 ==> s[0] != '0'
  {
    if n < 10 then [DigitChar(n)] else Decimal(n / 10) + [DigitChar(n % 10)]
  }

  /** The number a string of decimal digits denotes, read as `int(s)` reads it. */
  function DecimalValue(s: string): nat
    requires AllDigits(s)
  {
    if s == [] then 0
    else DecimalValue(s[..|s| - 1]) * 10 + (s[|s| - 1] as int - '0' as int)
  }

  /** Formatting a count and reading it back gives the count. */
  lemma {:induction false} DecimalRoundTrip(n: nat)
    ensures DecimalValue(Decimal(n)) == n
  {
    if n >= 10 {
      var s := Decimal(n);
      assert s[..|s| - 1] == Decimal(n / 10);
      DecimalRoundTrip(n / 10);
    }
  }

  /** Python's `sep.join(xs)`. */
  function Join(sep: string, xs: seq<string>): (r: string)
    ensures xs == [] ==> r == []
    ensures |xs| == 1 ==> r == xs[0]
  {
    if xs == [] then []
    else if |xs| == 1 then xs[0]
    else Join(sep, xs[..|xs| - 1]) + sep + xs[|xs| - 1]
  }

  /** Joining one more piece appends the separator and the piece. */
  lemma JoinAppend(sep: string, xs: seq<string>, x: string)
    requires xs != []
    ensures Join(sep, xs + [x]) == Join(sep, xs) + sep + x
  {
    assert (xs + [x])[..|xs|] == xs;
  }

  /** A join of texts without `c` contains no `c`, when the separator has none. */
  lemma {:induction false} JoinAvoids(sep: string, xs: seq<string>, c: char)
    requires c !in sep
    requires forall k | 0 <= k < |xs| :: c !in xs[k]
    ensures c !in Join(sep, xs)
    decreases |xs|
  {
    if |xs| >= 2 {
      JoinAvoids(sep, xs[..|xs| - 1], c);
    }
  }

  /** The position of the first `c` in `s`, or `|s|` when there is none, as
      `str.find` gives it (with `|s|` for `-1`). */
  function IndexOf(c: char, s: string): (i: nat)
    ensures i <= |s|
    ensures i < |s| ==> s[i] == c
    ensures forall k | 0 <= k < i :: s[k] != c
  {
    if s == [] then 0
    else if s[0] == c then 0
    else 1 + IndexOf(c, s[1..])
  }

  /** The first `c` of a text is the one right after a part without `c`. */
  lemma {:induction false} IndexOfFirst(c: char, a: string, b: string)
    requires c !in a
    ensures IndexOf(c, a + [c] + b) == |a|
    decreases |a|
  {
    if a != [] {
      assert (a + [c] + b)[1..] == a[1..] + [c] + b;
      IndexOfFirst(c, a[1..], b);
    }
  }

  /** Python's `s.split(c)` for a one-character separator: the pieces between the
      separators, one more than there are separators. */
  function Split(c: char, s: string): (r: seq<string>)
    ensures |r| >= 1
  {
    if s == [] then [[]]
    else
      var init := Split(c, s[..|s| - 1]);
      if s[|s| - 1] == c then init + [[]]
      else init[..|init| - 1] + [init[|init| - 1] + [s[|s| - 1]]]
  }

  /** A text without the separator is one piece. */
  lemma {:induction false} SplitWhole(c: char, s: string)
    requires c !in s
    ensures Split(c, s) == [s]
    decreases |s|
  {
    if s != [] {
      var init, last := s[..|s| - 1], s[|s| - 1];
      forall k | 0 <= k < |init| ensures init[k] != c {
        assert init[k] == s[k];
      }
      SplitWhole(c, init);
      assert s == init + [last];
    }
  }

  /** After a separator, a piece without the separator is the last piece. */
  lemma {:induction false} SplitLastPiece(c: char, a: string, x: string)
    requires c !in x
    ensures Split(c, a + [c] + x) == Split(c, a) + [x]
    decreases |x|
  {
    if x == [] {
      assert a + [c] + x == a + [c];
      assert (a + [c])[..|a|] == a;
    } else {
      var init, last := x[..|x| - 1], x[|x| - 1];
      forall k | 0 <= k < |init| ensures init[k] != c {
        assert init[k] == x[k];
      }
      SplitLastPiece(c, a, init);
      var whole := a + [c] + x;
      assert whole[..|whole| - 1] == a + [c] + init;
      assert whole[|whole| - 1] == last;
      assert x == init + [last];
    }
  }

  /** Splitting the joined text on the separator gives the pieces back, when none
      of them contains it. */
  lemma {:induction false} SplitJoin(c: char, xs: seq<string>)
    requires xs != []
    requires forall k | 0 <= k < |xs| :: c !in xs[k]
    ensures Split(c, Join([c], xs)) == xs
    decreases |xs|
  {
    if |xs| == 1 {
      SplitWhole(c, xs[0]);
    } else {
      var init, last := xs[..|xs| - 1], xs[|xs| - 1];
      SplitJoin(c, init);
      SplitLastPiece(c, Join([c], init), last);
      assert xs == init + [last];
    }
  }


  /** The concatenation of a sequence of sequences, as `pd.concat(..., ignore_index=True)`
      concatenates the rows of a list of tables. */
  function Flatten<T>(ss: seq<seq<T>>): (r: seq<T>)
  {
    if ss == [] then [] else Flatten(ss[..|ss| - 1]) + ss[|ss| - 1]
  }

  lemma {:induction false} FlattenAppend<T>(a: seq<seq<T>>, b: seq<seq<T>>)
    ensures Flatten(a + b) == Flatten(a) + Flatten(b)
    decreases |b|
  {
    if b == [] {
      assert a + b == a;
    } else {
      var b' := b[..|b| - 1];
      assert a + b == (a + b') + [b[|b| - 1]];
      assert (a + b)[..|a + b| - 1] == a + b';
      FlattenAppend(a, b');
    }
  }

  /** What a concatenation is made of: it starts with its first part and ends with
      its second, which follows right after the first. */
  lemma Concat<T>(a: seq<T>, b: seq<T>)
    ensures |a + b| == |a| + |b|
    ensures StartsWith(a + b, a) && EndsWith(a + b, b) && (a + b)[|a|..] == b
  {
    assert (a + b)[..|a|] == a;
  }

  lemma StartsWithTrans<T>(s: seq<T>, p: seq<T>, q: seq<T>)
    requires StartsWith(s, p) && StartsWith(p, q)
    ensures StartsWith(s, q)
  {
    assert s[..|q|] == s[..|p|][..|q|];
  }

  lemma EndsWithTrans<T>(s: seq<T>, p: seq<T>, q: seq<T>)
    requires EndsWith(s, p) && EndsWith(p, q)
    ensures EndsWith(s, q)
  {
    assert s[|s| - |q|..] == s[|s| - |p|..][|p| - |q|..];
  }

  lemma PrefixOfConcat<T>(a: seq<T>, b: seq<T>)
    ensures StartsWith(a + b, a)
  {
    assert (a + b)[..|a|] == a;
  }

  lemma StartsWithEqual<T>(s: seq<T>, p: seq<T>, q: seq<T>)
    requires StartsWith(s, p) && p == q
    ensures StartsWith(s, q)
  {
  }

  lemma PrefixUnder<T>(a: seq<T>, s: seq<T>, p: seq<T>)
    requires StartsWith(s, p)
    ensures StartsWith(a + s, a + p)
  {
    assert (a + s)[..|a + p|] == a + s[..|p|];
  }

  lemma SuffixOfConcat<T>(a: seq<T>, b: seq<T>, suffix: seq<T>)
    requires EndsWith(b, suffix)
    ensures EndsWith(a + b, suffix)
  {
    assert (a + b)[|a + b| - |suffix|..] == b[|b| - |suffix|..];
  }

  lemma PrefixOfPrefix<T>(s: seq<T>, p: seq<T>, q: seq<T>)
    requires StartsWith(s, p + q)
    ensures StartsWith(s, p)
  {
    assert s[..|p|] == (p + q)[..|p|];
  }

  /** Cutting the last element off a sequence cuts it off its suffix too. */
  lemma SuffixDropLast<T>(s: seq<T>, suffix: seq<T>)
    requires EndsWith(s, suffix) && 0 < |suffix|
    ensures EndsWith(s[..|s| - 1], suffix[..|suffix| - 1])
  {
    assert s[..|s| - 1][|s| - |suffix|..] == s[|s| - |suffix|..][..|suffix| - 1];
  }

  /** Cutting the first element off a sequence keeps a shorter suffix. */
  lemma SuffixDropFirst<T>(s: seq<T>, suffix: seq<T>)
    requires EndsWith(s, suffix) && |suffix| < |s|
    ensures EndsWith(s[1..], suffix)
  {
    assert s[1..][|s| - 1 - |suffix|..] == s[|s| - |suffix|..];
  }

  /** The elements of `s`, each once, in the order of their first occurrence, as
      the keys of a dictionary filled from `s` are ordered. */
  function Distinct<T(==)>(s: seq<T>): seq<T> {
    if s == [] then []
    else
      var init := Distinct(s[..|s| - 1]);
      if s[|s| - 1] in init then init else init + [s[|s| - 1]]
  }

  /** `Distinct` keeps every element and no repetition, and leaves a sequence
      without repetitions as it is. */
  lemma {:induction false} DistinctFacts<T>(s: seq<T>)
    ensures forall x :: x in Distinct(s) <==> x in s
    ensures NoDuplicates(Distinct(s))
    ensures NoDuplicates(s) ==> Distinct(s) == s
  {
    if s != [] {
      var init := s[..|s| - 1];
      DistinctFacts(init);
      assert s == init + [s[|s| - 1]];
      if NoDuplicates(s) {
        assert NoDuplicates(init);
        assert s[|s| - 1] !in init;
      }
    }
  }
}
