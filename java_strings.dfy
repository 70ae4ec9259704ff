/**
 * The java.lang.String and java.lang.Integer operations that Main.java relies
 * on, modelled on sequences of characters: String.trim, String.split with a
 * single literal separator character and a positive limit, and
 * Integer.parseInt as a partial function.
 */
module JavaStrings {
  import opened Wrappers

  // ---------------------------------------------------------------------------
  // String.trim
  // ---------------------------------------------------------------------------

  /** String.trim removes every code unit at or below U+0020 (space, tab, the
      line terminators and the other control characters). */
  predicate IsBlank(c: char)
  {
    c <= ' '
  }

  predicate AllBlank(s: string)
  {
    forall k :: 0 <= k < |s| ==> IsBlank(s[k])
  }

  /** s has nothing that trim would remove. */
  predicate IsTrimmed(s: string)
  {
    s == [] || (!IsBlank(s[0]) && !IsBlank(s[|s| - 1]))
  }

  /** s without its leading blanks. */
  function TrimStart(s: string): (r: string)
    ensures |r| <= |s| && r == s[|s| - |r|..]
    ensures AllBlank(s[..|s| - |r|])
    ensures r == [] || !IsBlank(r[0])
  {
    if s != [] && IsBlank(s[0]) then TrimStart(s[1..]) else s
  }

  /** s without its trailing blanks. */
  function TrimEnd(s: string): (r: string)
    ensures |r| <= |s| && r == s[..|r|]
    ensures AllBlank(s[|r|..])
    ensures r == [] || !IsBlank(r[|r| - 1])
  {
    if s != [] && IsBlank(s[|s| - 1]) then TrimEnd(s[..|s| - 1]) else s
  }

  /** String.trim. */
  function Trim(s: string): (r: string)
    ensures IsTrimmed(r) && |r| <= |s|
    ensures r == [] <==> AllBlank(s)
  {
    var front := TrimStart(s);
    var r := TrimEnd(front);
    assert r != [] ==> r[0] == front[0];
    assert r == [] ==> front == [] && s == s[..|s|];
    r
  }

  lemma {:induction false} TrimStartOfBlankPrefix(x: string, rest: string)
    requires AllBlank(x) && (rest == [] || !IsBlank(rest[0]))
    ensures TrimStart(x + rest) == rest
    decreases |x|
  {
    if x != [] {
      assert (x + rest)[1..] == x[1..] + rest;
      TrimStartOfBlankPrefix(x[1..], rest);
    }
  }

  lemma {:induction false} TrimEndOfBlankSuffix(rest: string, y: string)
    requires AllBlank(y) && (rest == [] || !IsBlank(rest[|rest| - 1]))
    ensures TrimEnd(rest + y) == rest
    decreases |y|
  {
    if y != [] {
      assert (rest + y)[..|rest + y| - 1] == rest + y[..|y| - 1];
      TrimEndOfBlankSuffix(rest, y[..|y| - 1]);
    }
  }

  /** Trim removes exactly the blank padding around a trimmed string: together
      with the ensures of Trim, this characterises the result completely. */
  lemma TrimOfPadded(x: string, r: string, y: string)
    requires AllBlank(x) && AllBlank(y) && IsTrimmed(r)
    ensures Trim(x + r + y) == r
  {
    if r == [] {
      assert x + r + y == (x + y) + [];
      TrimStartOfBlankPrefix(x + y, []);
    } else {
      assert x + r + y == x + (r + y);
      TrimStartOfBlankPrefix(x, r + y);
      TrimEndOfBlankSuffix(r, y);
    }
  }

  /** Trimming twice is trimming once. */
  lemma TrimIdempotent(s: string)
    ensures Trim(Trim(s)) == Trim(s)
  {
    TrimOfTrimmed(Trim(s));
  }

  /** A trimmed string is its own trim. */
  lemma TrimOfTrimmed(r: string)
    requires IsTrimmed(r)
    ensures Trim(r) == r
  {
    assert TrimStart(r) == r;
    assert TrimEnd(r) == r;
  }

  // ---------------------------------------------------------------------------
  // String.split(separator, limit) for a one-character literal separator
  // ---------------------------------------------------------------------------

  /** Index of the first occurrence of c in s. */
  function IndexOf(s: string, c: char): (k: nat)
    requires c in s
    ensures k < |s| && s[k] == c && c !in s[..k]
  {
    if s[0] == c then 0 else 1 + IndexOf(s[1..], c)
  }

  lemma IndexOfAfter(a: string, c: char, b: string)
    requires c !in a
    ensures c in a + [c] + b && IndexOf(a + [c] + b, c) == |a|
  {
    var s := a + [c] + b;
    assert s[|a|] == c;
  }

  /** The inverse of split: the parts with the separator between them. */
  function Join(parts: seq<string>, sep: char): string
  {
    if parts == [] then []
    else if |parts| == 1 then parts[0]
    else parts[0] + [sep] + Join(parts[1..], sep)
  }

  /** The parts are what split may return for this limit: only the last part
      may contain the separator, and only when the limit was reached. */
  predicate SplitShape(parts: seq<string>, sep: char, limit: nat)
    decreases |parts|
  {
    && 0 < |parts| <= limit
    && if |parts| == 1 then limit == 1 || sep !in parts[0]
       else sep !in parts[0] && SplitShape(parts[1..], sep, limit - 1)
  }

  /** String.split(sep, limit) with limit > 0: at most limit parts, the last
      one holding the rest of the string; empty parts, trailing ones included,
      are kept. */
  function Split(s: string, sep: char, limit: nat): seq<string>
    requires limit > 0
    decreases limit
  {
    if limit == 1 || sep !in s then [s]
    else
      var k := IndexOf(s, sep);
      [s[..k]] + Split(s[k + 1..], sep, limit - 1)
  }

  /** The parts split returns have the shape SplitShape describes. */
  lemma {:induction false} SplitShapeOfSplit(s: string, sep: char, limit: nat)
    requires limit > 0
    ensures SplitShape(Split(s, sep, limit), sep, limit)
    decreases limit
  {
    if limit > 1 && sep in s {
      var k := IndexOf(s, sep);
      var rest := Split(s[k + 1..], sep, limit - 1);
      SplitShapeOfSplit(s[k + 1..], sep, limit - 1);
      var parts := [s[..k]] + rest;
      assert Split(s, sep, limit) == parts;
      assert parts[1..] == rest;
    }
  }

  /** Split stops at the first separator. */
  lemma SplitAtFirst(a: string, sep: char, b: string, limit: nat)
    requires sep !in a && limit > 1
    ensures Split(a + [sep] + b, sep, limit) == [a] + Split(b, sep, limit - 1)
  {
    var s := a + [sep] + b;
    IndexOfAfter(a, sep, b);
    assert s[..|a|] == a;
    assert s[|a| + 1..] == b;
  }

  /** Nothing is lost by splitting: joining the parts gives back s. */
  lemma {:induction false} JoinOfSplit(s: string, sep: char, limit: nat)
    requires limit > 0
    ensures Join(Split(s, sep, limit), sep) == s
    decreases limit
  {
    if limit > 1 && sep in s {
      var k := IndexOf(s, sep);
      var a, b := s[..k], s[k + 1..];
      assert s == a + [sep] + b;
      SplitAtFirst(a, sep, b, limit);
      JoinOfSplit(b, sep, limit - 1);
      SplitShapeOfSplit(b, sep, limit - 1);
      JoinCons(a, Split(b, sep, limit - 1), sep);
    }
  }

  /** Join of one more part in front. */
  lemma JoinCons(a: string, rest: seq<string>, sep: char)
    requires rest != []
    ensures Join([a] + rest, sep) == a + [sep] + Join(rest, sep)
  {
    assert ([a] + rest)[1..] == rest;
  }

  /** With no separator to split at, or a limit of 1, the whole string is
      the only part. */
  lemma SplitWhole(s: string, sep: char, limit: nat)
    requires limit == 1 || (limit > 0 && sep !in s)
    ensures Split(s, sep, limit) == [s]
  {
  }

  /** Splitting the join of well-shaped parts gives back the parts. */
  lemma {:induction false} SplitOfJoin(parts: seq<string>, sep: char, limit: nat)
    requires SplitShape(parts, sep, limit)
    ensures Split(Join(parts, sep), sep, limit) == parts
    decreases |parts|
  {
    if |parts| == 1 {
      SplitWhole(parts[0], sep, limit);
      assert parts == [parts[0]];
    } else {
      SplitOfJoin(parts[1..], sep, limit - 1);
      SplitOfJoinStep(parts, sep, limit);
    }
  }

  /** The induction step of SplitOfJoin: the first part is split off. */
  lemma SplitOfJoinStep(parts: seq<string>, sep: char, limit: nat)
    requires SplitShape(parts, sep, limit) && |parts| > 1
    requires Split(Join(parts[1..], sep), sep, limit - 1) == parts[1..]
    ensures Split(Join(parts, sep), sep, limit) == parts
  {
    var a, rest := parts[0], parts[1..];
    assert parts == [a] + rest;
    JoinCons(a, rest, sep);
    SplitAtFirst(a, sep, Join(rest, sep), limit);
  }

  /** One more than the number of separators, capped by the limit. */
  function PartCount(separators: nat, limit: nat): nat
  {
    if separators + 1 < limit then separators + 1 else limit
  }

  /** The number of parts: one more than the separators in s, capped by the
      limit. */
  lemma {:induction false} SplitCount(s: string, sep: char, limit: nat)
    requires limit > 0
    ensures |Split(s, sep, limit)| == PartCount(multiset(s)[sep], limit)
    decreases limit
  {
    if limit == 1 || sep !in s {
      assert Split(s, sep, limit) == [s];
    } else {
      var k := IndexOf(s, sep);
      assert s == s[..k] + [sep] + s[k + 1..];
      assert multiset(s) == multiset(s[..k]) + multiset([sep]) + multiset(s[k + 1..]);
      assert multiset(s[..k])[sep] == 0;
      SplitCount(s[k + 1..], sep, limit - 1);
    }
  }

  // ---------------------------------------------------------------------------
  // Integer.parseInt
  // ---------------------------------------------------------------------------

  const MinInt: int := -0x8000_0000
  const MaxInt: int := 0x7fff_ffff

  predicate IsDigit(c: char)
  {
    '0' <= c <= '9'
  }

  predicate AllDigits(s: string)
  {
    forall k :: 0 <= k < |s| ==> IsDigit(s[k])
  }

  /** The value of a string of decimal digits, most significant first. */
  function DigitsValue(s: string): nat
    requires AllDigits(s)
  {
    if s == [] then 0
    else DigitsValue(s[..|s| - 1]) * 10 + (s[|s| - 1] as int - '0' as int)
  }

  /** Integer.parseInt: an optional sign followed by at least one decimal
      digit, whose value fits in 32 bits; anything else is a
      NumberFormatException, here None. */
  function ParseInt(s: string): (r: Option<int>)
    ensures r.Some? ==> MinInt <= r.value <= MaxInt
    ensures r.Some? ==> s != [] && (IsDigit(s[0]) || s[0] == '-' || s[0] == '+')
    ensures r.Some? ==> AllDigits(s[1..]) && (!IsDigit(s[0]) ==> |s| > 1)
  {
    if s == [] then None
    else
      var digits := if s[0] == '-' || s[0] == '+' then s[1..] else s;
      if digits == [] || !AllDigits(digits) then None
      else
        var magnitude := DigitsValue(digits);
        var v: int := if s[0] == '-' then -(magnitude as int) else magnitude as int;
        if MinInt <= v <= MaxInt then Some(v) else None
  }

  /** The decimal digits of n, as Integer.toString writes them. */
  function NatDecimal(n: nat): (r: string)
    ensures r != [] && AllDigits(r) && DigitsValue(r) == n
  {
    if n < 10 then ['0' + n as char]
    else
      var front := NatDecimal(n / 10);
      var r := front + ['0' + (n % 10) as char];
      assert r[..|r| - 1] == front;
      r
  }

  /** Integer.toString. */
  function Decimal(v: int): string
  {
    if v < 0 then ['-'] + NatDecimal(-v) else NatDecimal(v)
  }

  /** parseInt reads back every 32-bit integer from its decimal form and
      rejects the decimal form of every integer outside that range. */
  lemma ParseIntOfDecimal(v: int)
    ensures ParseInt(Decimal(v)) == if MinInt <= v <= MaxInt then Some(v) else None
  {
    if v < 0 {
      assert Decimal(v)[1..] == NatDecimal(-v);
    } else {
      assert IsDigit(NatDecimal(v)[0]);
    }
  }
}
