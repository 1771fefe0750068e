/** The Python string operations the instrument code leans on: `str(n)`,
    `int(s)`, `float(s)`, `s.find(c)`, `s.split(c)` and `s.replace(c, '')`.
 */
module Text {
  import opened Wrappers
  import opened Numbers
  import Tree

  predicate IsDigit(c: char)
  {
    '0' <= c <= '9'
  }

  predicate AllDigits(s: string)
  {
    forall i | 0 <= i < |s| :: IsDigit(s[i])
  }

  function DigitValue(c: char): nat
    requires IsDigit(c)
  {
    (c as int) - ('0' as int)
  }

  function DigitChar(d: nat): (c: char)
    requires d < 10
    ensures IsDigit(c) && DigitValue(c) == d
  {
    (('0' as int) + d) as char
  }

  /** Value of a string of decimal digits, most significant first; "" is 0. */
  function DigitsValue(s: string): nat
    requires AllDigits(s)
  {
    if |s| == 0 then 0 else 10 * DigitsValue(s[..|s| - 1]) + DigitValue(s[|s| - 1])
  }

  /** Python's `str(n)` for a non-negative integer. */
  function NatToString(n: nat): (s: string)
    ensures |s| >= 1 && AllDigits(s)
    ensures DigitsValue(s) == n
    ensures |s| > 1 ==> s[0] != '0'
  {
    if n < 10 then [DigitChar(n)]
    else
      var prefix := NatToString(n / 10);
      var s := prefix + [DigitChar(n % 10)];
      assert s[..|s| - 1] == prefix;
      s
  }

  /** Python's `str(i)` for any integer. */
  function IntToString(i: int): (s: string)
    ensures |s| >= 1
    ensures i >= 0 ==> s == NatToString(i)
    ensures i < 0 ==> s == "-" + NatToString(-i)
  {
    if i < 0 then "-" + NatToString(-i) else NatToString(i)
  }

  /** Different numbers print differently. */
  lemma NatToStringInjective(a: nat, b: nat)
    requires NatToString(a) == NatToString(b)
    ensures a == b
  {
  }

  /** The whitespace Python's `str.strip()` removes (ASCII part). */
  predicate IsSpace(c: char)
  {
    c == ' ' || ('\t' <= c <= '\r')
  }

  function TrimStart(s: string): (t: string)
    ensures |t| <= |s|
  {
    if |s| > 0 && IsSpace(s[0]) then TrimStart(s[1..]) else s
  }

  function TrimEnd(s: string): (t: string)
    ensures |t| <= |s|
  {
    if |s| > 0 && IsSpace(s[|s| - 1]) then TrimEnd(s[..|s| - 1]) else s
  }

  function Trim(s: string): string
  {
    TrimEnd(TrimStart(s))
  }

  /** A string that neither starts nor ends with whitespace is its own trim. */
  lemma TrimUnspaced(s: string)
    requires |s| > 0 && !IsSpace(s[0]) && !IsSpace(s[|s| - 1])
    ensures Trim(s) == s
  {
  }

  /** Python's `s.find(c)`: index of the first `c`, or -1. */
  function Find(s: string, c: char): (i: int)
    ensures -1 <= i < |s|
    ensures i == -1 <==> c !in s
    ensures i >= 0 ==> s[i] == c && c !in s[..i]
  {
    if |s| == 0 then -1
    else if s[0] == c then 0
    else
      var k := Find(s[1..], c);
      assert s[1..][..k + 1] == s[1..k + 2] by { }
      if k < 0 then -1 else k + 1
  }

  lemma {:induction false} FindAppend(x: string, y: string, c: char)
    ensures c in x ==> Find(x + y, c) == Find(x, c)
    ensures c !in x ==> Find(x + y, c) == if c in y then |x| + Find(y, c) else -1
  {
    var i := Find(x + y, c);
    if c in x {
      var j := Find(x, c);
      assert (x + y)[j] == c;
      assert (x + y)[..j] == x[..j];
      assert i <= j;
      assert (x + y)[..i] == x[..i];
    } else if c in y {
      var j := Find(y, c);
      assert (x + y)[|x| + j] == c;
      assert (x + y)[..|x| + j] == x + y[..j];
    }
  }

  /** The first `c` of `a + [c] + b` is the one after `a` when `a` has none. */
  lemma FindSplit(a: string, b: string, c: char)
    requires c !in a
    ensures var s := a + [c] + b;
      Find(s, c) == |a| && s[..|a|] == a && s[|a| + 1..] == b
  {
    var s := a + [c] + b;
    assert s == a + ([c] + b);
    FindAppend(a, [c] + b, c);
    assert Find([c] + b, c) == 0;
    assert s[..|a|] == a;
    assert s[|a| + 1..] == b;
  }

  /** The first `c` of `a + sep + b` is the head of `sep` when `a` has none. */
  lemma FindSplitAt(a: string, sep: string, b: string, c: char)
    requires c !in a && |sep| > 0 && sep[0] == c
    ensures var s := a + sep + b;
      Find(s, c) == |a| && s[..|a|] == a && s[|a|..|a| + |sep|] == sep && s[|a| + |sep|..] == b
  {
    FindAppend(a, sep + b, c);
    assert (sep + b)[0] == c;
    assert a + sep + b == a + (sep + b);
  }

  /** Python's `s.replace(c, '')` for a single character `c`. */
  function RemoveChar(s: string, c: char): (r: string)
    ensures c !in r
    ensures |r| <= |s|
    ensures c !in s ==> r == s
    ensures forall d :: d != c ==> multiset(r)[d] == multiset(s)[d]
  {
    if |s| == 0 then ""
    else
      assert s == [s[0]] + s[1..];
      if s[0] == c then RemoveChar(s[1..], c) else [s[0]] + RemoveChar(s[1..], c)
  }

  /** Removing a character works piecewise, so it keeps the order of the rest. */
  lemma {:induction false} RemoveCharAppend(x: string, y: string, c: char)
    ensures RemoveChar(x + y, c) == RemoveChar(x, c) + RemoveChar(y, c)
    decreases |x|
  {
    if |x| > 0 {
      assert (x + y)[1..] == x[1..] + y;
      RemoveCharAppend(x[1..], y, c);
    } else {
      assert x + y == y;
    }
  }

  /** Applying the removal twice changes nothing more. */
  lemma RemoveCharIdempotent(s: string, c: char)
    ensures RemoveChar(RemoveChar(s, c), c) == RemoveChar(s, c)
  {
  }

  /** Python's `s.split(c)`: the pieces between the occurrences of `c`. */
  function Split(s: string, c: char): (parts: seq<string>)
    ensures |parts| >= 1
    ensures forall k | 0 <= k < |parts| :: c !in parts[k]
    decreases |s|
  {
    var i := Find(s, c);
    if i < 0 then [s] else [s[..i]] + Split(s[i + 1..], c)
  }

  function Join(parts: seq<string>, c: char): string
    requires |parts| >= 1
  {
    if |parts| == 1 then parts[0] else parts[0] + [c] + Join(parts[1..], c)
  }

  lemma PieceAround<T>(s: seq<T>, i: nat)
    requires i < |s|
    ensures s[..i] + [s[i]] + s[i + 1..] == s
  {
  }

  /** Joining the pieces with the separator gives the string back. */
  lemma {:induction false} SplitJoin(s: string, c: char)
    ensures Join(Split(s, c), c) == s
    decreases |s|
  {
    var i := Find(s, c);
    if i >= 0 {
      var tail := s[i + 1..];
      var rest := Split(tail, c);
      SplitJoin(tail, c);
      var parts := [s[..i]] + rest;
      assert Split(s, c) == parts;
      assert parts[1..] == rest;
      assert Join(parts, c) == s[..i] + [c] + Join(rest, c);
      PieceAround(s, i);
    }
  }

  /** When `x` holds a separator, splitting `x + [c] + y` first cuts at the
      first separator of `x`. */
  lemma SplitAtFirst(x: string, y: string, c: char)
    requires c in x
    ensures var i := Find(x, c);
      Split(x + [c] + y, c) == [x[..i]] + Split(x[i + 1..] + [c] + y, c)
  {
    var s := x + [c] + y;
    var i := Find(x, c);
    FindAppend(x, [c] + y, c);
    assert s == x + ([c] + y);
    assert s[..i] == x[..i];
    assert s[i + 1..] == x[i + 1..] + [c] + y;
  }

  /** A separator splits the string into the pieces of its two sides. */
  lemma {:induction false} SplitAround(x: string, y: string, c: char)
    ensures Split(x + [c] + y, c) == Split(x, c) + Split(y, c)
    decreases |x|
  {
    if c in x {
      var i := Find(x, c);
      SplitAtFirst(x, y, c);
      SplitAround(x[i + 1..], y, c);
      assert Split(x, c) == [x[..i]] + Split(x[i + 1..], c);
      Tree.AppendAssociative([x[..i]], Split(x[i + 1..], c), Split(y, c));
    } else {
      FindSplit(x, y, c);
      assert Split(x + [c] + y, c) == [x] + Split(y, c);
    }
  }

  /** A printed integer holds no character other than digits and '-'. */
  lemma IntStringExcludes(i: int, c: char)
    requires !IsDigit(c) && c != '-'
    ensures c !in IntToString(i)
  {
    DigitsExclude(NatToString(Abs(i)), c);
  }

  /** Python's `xs[i]` on a list, negative indices counting from the end. */
  function Subscript<T>(xs: seq<T>, i: int): (r: Result<T>)
    ensures r.Ok? <==> -|xs| <= i < |xs|
    ensures 0 <= i < |xs| ==> r == Ok(xs[i])
    ensures -|xs| <= i < 0 ==> r == Ok(xs[|xs| + i])
  {
    if 0 <= i < |xs| then Ok(xs[i])
    else if -|xs| <= i < 0 then Ok(xs[|xs| + i])
    else Err(IndexOutOfRange)
  }

  /** A Python slice bound: negative counts from the end, then clamped. */
  function SliceBound(n: nat, i: int): (b: nat)
    ensures b <= n
    ensures 0 <= i <= n ==> b == i
    ensures -(n as int) <= i < 0 ==> b == n + i
  {
    if i < 0 then (if i + n < 0 then 0 else i + n) else if i > n then n else i
  }

  /** Python's `s[lo:hi]`: a negative bound counts from the end, a bound
      past either end is clamped to it, and crossed bounds give the empty
      sequence. */
  function Slice<T>(s: seq<T>, lo: int, hi: int): (r: seq<T>)
    ensures 0 <= lo <= hi <= |s| ==> r == s[lo..hi]
    ensures -|s| <= lo <= hi < 0 ==> r == s[|s| + lo..|s| + hi]
    ensures 0 <= lo && -|s| <= hi < 0 && lo <= |s| + hi ==> r == s[lo..|s| + hi]
    ensures 0 <= lo <= |s| <= hi ==> r == s[lo..]
    ensures -|s| <= lo < 0 <= hi <= |s| && |s| + lo <= hi ==> r == s[|s| + lo..hi]
    ensures -|s| <= lo < 0 && |s| <= hi ==> r == s[|s| + lo..]
    ensures lo <= -|s| && 0 <= hi <= |s| ==> r == s[..hi]
    ensures lo < -|s| && -|s| <= hi < 0 ==> r == s[..|s| + hi]
    ensures lo <= -|s| && |s| <= hi ==> r == s
    ensures 0 <= lo && hi < 0 && |s| + hi < lo ==> r == []
    ensures lo < 0 <= hi && hi < |s| + lo ==> r == []
    ensures hi <= -|s| || |s| <= lo ==> r == []
    ensures 0 <= lo && 0 <= hi <= lo ==> r == []
    ensures |r| <= |s|
  {
    var a := SliceBound(|s|, lo);
    var b := SliceBound(|s|, hi);
    if a < b then s[a..b] else []
  }

  /** `[pos for pos, x in enumerate(s) if x == c]`. */
  function Positions<T(==)>(s: seq<T>, c: T): (ps: seq<nat>)
    ensures forall k | 0 <= k < |ps| :: ps[k] < |s| && s[ps[k]] == c
    ensures forall k | 0 <= k < |s| && s[k] == c :: k in ps
    ensures forall a, b | 0 <= a < b < |ps| :: ps[a] < ps[b]
  {
    if |s| == 0 then []
    else
      var front := s[..|s| - 1];
      assert forall k | 0 <= k < |front| :: front[k] == s[k];
      Positions(front, c) + (if s[|s| - 1] == c then [|s| - 1] else [])
  }

  /** Characters other than `c` add no position. */
  lemma {:induction false} PositionsFree<T>(x: seq<T>, y: seq<T>, c: T)
    requires c !in y
    ensures Positions(x + y, c) == Positions(x, c)
    decreases |y|
  {
    if |y| > 0 {
      var s := x + y;
      assert s[..|s| - 1] == x + y[..|y| - 1];
      PositionsFree(x, y[..|y| - 1], c);
    } else {
      assert x + y == x;
    }
  }

  /** An appended `c` adds its own position. */
  lemma PositionsSep<T>(x: seq<T>, c: T)
    ensures Positions(x + [c], c) == Positions(x, c) + [|x|]
  {
    assert (x + [c])[..|x|] == x;
  }

  /** Python's `int(s)`: optional surrounding whitespace and sign, then digits. */
  function ParseInt(s: string): (r: Option<int>)
    ensures |s| > 0 && AllDigits(s) ==> r == Some(DigitsValue(s) as int)
    ensures |s| > 1 && s[0] == '-' && AllDigits(s[1..]) ==> r == Some(-(DigitsValue(s[1..]) as int))
    ensures r.Some? ==> |Trim(s)| > 0 && forall k | 0 <= k < |Trim(s)| :: IsDigit(Trim(s)[k]) || (k == 0 && Trim(s)[k] in "+-")
  {
    var t := Trim(s);
    assert |s| > 0 && (IsDigit(s[0]) || s[0] == '-') && IsDigit(s[|s| - 1]) ==> t == s by {
      if |s| > 0 && (IsDigit(s[0]) || s[0] == '-') && IsDigit(s[|s| - 1]) {
        TrimUnspaced(s);
      }
    }
    if |t| > 0 && (t[0] == '-' || t[0] == '+') then
      var body := t[1..];
      if |body| > 0 && AllDigits(body) then
        Some(if t[0] == '-' then -(DigitsValue(body) as int) else DigitsValue(body) as int)
      else None
    else if |t| > 0 && AllDigits(t) then Some(DigitsValue(t))
    else None
  }

  /** What `float` accepts after the sign: at least one digit, digits
      everywhere except at most one point. */
  predicate PointedDigits(b: string)
  {
    |b| > 0 && b != "." && forall k | 0 <= k < |b| :: IsDigit(b[k]) || k == Find(b, '.')
  }

  /** An unsigned decimal with an optional point: "12", "12.5", "12.", ".5". */
  function ParseUnsignedDecimal(b: string): (r: Option<real>)
    ensures r.Some? <==> PointedDigits(b)
    ensures |b| > 0 && AllDigits(b) ==> r == Some(DigitsValue(b) as real)
  {
    var i := Find(b, '.');
    if i < 0 then
      if |b| > 0 && AllDigits(b) then Some(DigitsValue(b) as real) else None
    else
      var whole := b[..i];
      var frac := b[i + 1..];
      assert forall k | 0 <= k < |whole| :: whole[k] == b[k];
      assert forall k | 0 <= k < |frac| :: frac[k] == b[i + 1 + k];
      if AllDigits(whole) && AllDigits(frac) && |whole| + |frac| > 0 then
        Some(DigitsValue(whole) as real + Shift(DigitsValue(frac) as real, |frac|))
      else None
  }

  /** Python's `float(s)` on plain decimal notation. */
  function ParseDecimal(s: string): (r: Option<real>)
    ensures r.Some? <==> var t := Trim(s);
      PointedDigits(t) || (|t| > 0 && t[0] in "+-" && PointedDigits(t[1..]))
    ensures ParseInt(s).Some? ==> r == Some(ParseInt(s).value as real)
  {
    var t := Trim(s);
    if |t| > 0 && (t[0] == '-' || t[0] == '+') then
      match ParseUnsignedDecimal(t[1..])
      case Some(v) => Some(if t[0] == '-' then -v else v)
      case None => None
    else ParseUnsignedDecimal(t)
  }

  /** Digits, a point and digits, as an unsigned decimal. */
  lemma UnsignedOfPoint(a: string, b: string)
    requires AllDigits(a) && AllDigits(b) && |a| + |b| > 0
    ensures ParseUnsignedDecimal(a + "." + b).Some?
    ensures ParseUnsignedDecimal(a + "." + b).value == DigitsValue(a) as real + Shift(DigitsValue(b) as real, |b|)
  {
    DigitsExclude(a, '.');
    FindSplit(a, b, '.');
    var s := a + "." + b;
    var i := Find(s, '.');
    assert s[..i] == a && s[i + 1..] == b;
    assert ParseUnsignedDecimal(s).Some?;
    assert ParseUnsignedDecimal(s).value == DigitsValue(s[..i]) as real + Shift(DigitsValue(s[i + 1..]) as real, |s[i + 1..]|);
    assert DigitsValue(s[..i]) == DigitsValue(a) && DigitsValue(s[i + 1..]) == DigitsValue(b) && |s[i + 1..]| == |b|;
  }

  /** A number that starts and ends with a digit parses without trimming
      or a sign. */
  lemma DecimalUnsigned(s: string)
    requires |s| > 0 && IsDigit(s[0]) && IsDigit(s[|s| - 1])
    ensures ParseDecimal(s) == ParseUnsignedDecimal(s)
  {
    TrimUnspaced(s);
  }

  /** A string of digits holds no other character. */
  lemma DigitsExclude(d: string, c: char)
    requires AllDigits(d) && !IsDigit(c)
    ensures c !in d
  {
    assert forall k | 0 <= k < |d| :: d[k] != c;
  }

  /** `int(str(i)) == i`. */
  lemma IntRoundTrip(i: int)
    ensures ParseInt(IntToString(i)) == Some(i)
  {
    var s := IntToString(i);
    TrimUnspaced(s);
    if i < 0 {
      assert s[1..] == NatToString(-i);
    }
  }

  /** `float(str(i)) == i`. */
  lemma DecimalOfInt(i: int)
    ensures ParseDecimal(IntToString(i)) == Some(i as real)
  {
    var s := IntToString(i);
    TrimUnspaced(s);
    var d := NatToString(Abs(i));
    DigitsExclude(d, '.');
    if i < 0 {
      assert s[1..] == d;
    }
  }

  /** `float` agrees with `int` on strings of digits. */
  lemma DecimalOfDigits(d: string)
    requires |d| > 0 && AllDigits(d)
    ensures ParseUnsignedDecimal(d) == Some(DigitsValue(d) as real)
  {
    DigitsExclude(d, '.');
  }
}
