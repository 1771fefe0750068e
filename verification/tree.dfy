/** The ordered item lists behind the Qt tree widgets: instruments in the
    setup window and commands in the sequence editor. */
module Tree {

  /** `insertTopLevelItem(i, x)`: `x` becomes item `i`, later items move down. */
  function InsertAt<T>(s: seq<T>, i: nat, x: T): (r: seq<T>)
    requires i <= |s|
    ensures |r| == |s| + 1 && r[i] == x
    ensures forall k | 0 <= k < i :: r[k] == s[k]
    ensures forall k | i < k < |r| :: r[k] == s[k - 1]
  {
    s[..i] + [x] + s[i..]
  }

  /** `takeTopLevelItem(i)`: item `i` goes, later items move up. */
  function RemoveAt<T>(s: seq<T>, i: nat): (r: seq<T>)
    requires i < |s|
    ensures |r| == |s| - 1
    ensures forall k | 0 <= k < i :: r[k] == s[k]
    ensures forall k | i <= k < |r| :: r[k] == s[k + 1]
  {
    s[..i] + s[i + 1..]
  }

  /** Taking out the item just inserted restores the list. */
  lemma RemoveInserted<T>(s: seq<T>, i: nat, x: T)
    requires i <= |s|
    ensures RemoveAt(InsertAt(s, i, x), i) == s
  {
    var r := RemoveAt(InsertAt(s, i, x), i);
    assert forall k | 0 <= k < |s| :: r[k] == s[k];
  }

  /** Putting a removed item back where it was restores the list. */
  lemma InsertRemoved<T>(s: seq<T>, i: nat)
    requires i < |s|
    ensures InsertAt(RemoveAt(s, i), i, s[i]) == s
  {
    var r := InsertAt(RemoveAt(s, i), i, s[i]);
    assert forall k | 0 <= k < |s| :: r[k] == s[k];
  }

  function Reverse<T>(s: seq<T>): (r: seq<T>)
    ensures |r| == |s|
    ensures forall k | 0 <= k < |s| :: r[k] == s[|s| - 1 - k]
  {
    if |s| == 0 then [] else Reverse(s[1..]) + [s[0]]
  }

  /** No item occurs twice. */
  predicate Distinct<T(==)>(s: seq<T>)
  {
    forall i, j | 0 <= i < j < |s| :: s[i] != s[j]
  }

  lemma DistinctAppend<T>(a: seq<T>, b: seq<T>)
    requires Distinct(a) && Distinct(b)
    requires forall x | x in a :: x !in b
    ensures Distinct(a + b)
  {
    var s := a + b;
    forall i, j | 0 <= i < j < |s|
      ensures s[i] != s[j]
    {
      if i < |a| && j >= |a| {
        assert s[i] in a && s[j] == b[j - |a|];
      }
    }
  }

  /** In a list without repeats, a later item does not occur earlier. */
  lemma DistinctNotIn<T>(a: seq<T>, b: seq<T>, k: nat)
    requires Distinct(a + b) && k < |b|
    ensures b[k] !in a
  {
    var s := a + b;
    forall i | 0 <= i < |a|
      ensures a[i] != b[k]
    {
      assert s[i] == a[i] && s[|a| + k] == b[k];
    }
  }

  lemma AppendAssociative<T>(a: seq<T>, b: seq<T>, c: seq<T>)
    ensures (a + b) + c == a + (b + c)
  {
  }

  /** The head and tail of a concatenation with a non-empty front. */
  lemma TailAppend<T>(a: seq<T>, b: seq<T>)
    requires |a| > 0
    ensures (a + b)[0] == a[0] && (a + b)[1..] == a[1..] + b
  {
  }

  lemma EmptyAppend<T>(a: seq<T>, b: seq<T>)
    requires |a| == 0
    ensures a + b == b
  {
  }

  /** The blocks `f(first, xs[0])`, `f(first + 1, xs[1])`, ... laid end to end. */
  function Blocks<T, U>(xs: seq<T>, first: nat, f: (nat, T) -> seq<U>): seq<U>
    decreases |xs|
  {
    if |xs| == 0 then [] else f(first, xs[0]) + Blocks(xs[1..], first + 1, f)
  }

  /** The blocks of two runs are those of each run in turn. */
  lemma {:induction false} BlocksAppend<T, U>(a: seq<T>, b: seq<T>, first: nat, f: (nat, T) -> seq<U>)
    ensures Blocks(a + b, first, f) == Blocks(a, first, f) + Blocks(b, first + |a|, f)
    decreases |a|
  {
    if |a| > 0 {
      TailAppend(a, b);
      BlocksAppend(a[1..], b, first + 1, f);
      AppendAssociative(f(first, a[0]), Blocks(a[1..], first + 1, f), Blocks(b, first + |a|, f));
    } else {
      EmptyAppend(a, b);
    }
  }

  /** The two parts of a concatenation are its prefix and suffix. */
  lemma SplitAppend<T>(a: seq<T>, b: seq<T>)
    ensures (a + b)[..|a|] == a && (a + b)[|a|..] == b
  {
  }

  /** Item `i` owns one contiguous run of the blocks. */
  lemma BlocksAt<T, U>(xs: seq<T>, i: nat, f: (nat, T) -> seq<U>)
    requires i < |xs|
    ensures Blocks(xs, 0, f) == Blocks(xs[..i], 0, f) + f(i, xs[i]) + Blocks(xs[i + 1..], i + 1, f)
  {
    var front := Blocks(xs[..i], 0, f);
    var here := f(i, xs[i]);
    var back := Blocks(xs[i + 1..], i + 1, f);
    var rest := xs[i..];
    assert xs[..i] + rest == xs;
    BlocksAppend(xs[..i], rest, 0, f);
    assert rest[0] == xs[i] && rest[1..] == xs[i + 1..];
    assert Blocks(rest, i, f) == here + back;
    AppendAssociative(front, here, back);
  }
}
