/** What `toString` produces: PHP's `implode`, which writes each integer in
    decimal and each string as it is, and puts the glue between
    neighbouring values. `explode` on a one-byte glue is its inverse on a
    non-empty list of pieces none of which contains the glue byte. */
module Render {
  import opened Values
  import opened SortedSeqs

  /** ASCII `-`. */
  const Minus: byte := 45
  /** ASCII `0`; the digits are `0` to `9` in order. */
  const Zero: byte := 48

  /** `toString`'s default glue, `", "`. */
  const DefaultGlue: seq<byte> := [44, 32]

  predicate IsDigit(b: byte) {
    Zero <= b <= Zero + 9
  }

  predicate AllDigits(d: seq<byte>) {
    forall i :: 0 <= i < |d| ==> IsDigit(d[i])
  }

  /** The decimal digits of `n`, most significant first: never empty, and
      led by `0` only when `n` is zero. */
  function Digits(n: nat): (r: seq<byte>)
    ensures r != [] && AllDigits(r)
    ensures r[0] == Zero <==> n == 0
    decreases n
  {
    if n < 10 then [Zero + n as byte]
    else Digits(n / 10) + [Zero + (n % 10) as byte]
  }

  /** The number a digit string denotes. */
  function DigitsValue(d: seq<byte>): nat
    requires AllDigits(d)
  {
    if d == [] then 0
    else 10 * DigitsValue(d[..|d| - 1]) + (d[|d| - 1] - Zero) as nat
  }

  /** Reading back the digits of `n` gives `n`. */
  lemma {:induction false} DigitsRoundTrip(n: nat)
    ensures DigitsValue(Digits(n)) == n
    decreases n
  {
    if n >= 10 {
      var d := Digits(n);
      assert d[..|d| - 1] == Digits(n / 10);
      DigitsRoundTrip(n / 10);
    }
  }

  /** PHP's integer-to-string conversion: a `-` before the digits of a
      negative number. */
  function IntString(n: int): (r: seq<byte>)
    ensures r != []
    ensures r[0] == Minus <==> n < 0
    ensures AllDigits(if n < 0 then r[1..] else r)
  {
    if n < 0 then [Minus] + Digits(-n) else Digits(n)
  }

  /** Reads an optional `-` and then a digit string. */
  function ParseInt(r: seq<byte>): int
    requires r != [] && AllDigits(if r[0] == Minus then r[1..] else r)
  {
    if r[0] == Minus then -(DigitsValue(r[1..]) as int) else DigitsValue(r)
  }

  /** The decimal form of an integer reads back as that integer. */
  lemma IntStringRoundTrip(n: int)
    ensures ParseInt(IntString(n)) == n
  {
    if n < 0 {
      assert IntString(n)[1..] == Digits(-n);
      DigitsRoundTrip(-n);
    } else {
      DigitsRoundTrip(n);
    }
  }

  /** Different integers have different decimal forms. */
  lemma IntStringInjective(a: int, b: int)
    requires IntString(a) == IntString(b)
    ensures a == b
  {
    IntStringRoundTrip(a);
    IntStringRoundTrip(b);
  }

  /** One value as `implode` writes it. */
  function ValueString(v: Value): seq<byte> {
    match v
    case Int(n) => IntString(n)
    case Str(bytes) => bytes
  }

  /** Each value written out, in order. */
  function Rendered(vs: seq<Value>): (r: seq<seq<byte>>)
    ensures |r| == |vs| && forall i :: 0 <= i < |vs| ==> r[i] == ValueString(vs[i])
  {
    seq(|vs|, i requires 0 <= i < |vs| => ValueString(vs[i]))
  }

  /** The pieces with `glue` between each neighbouring pair. */
  function Join(glue: seq<byte>, parts: seq<seq<byte>>): seq<byte>
    decreases |parts|
  {
    if parts == [] then []
    else if |parts| == 1 then parts[0]
    else parts[0] + glue + Join(glue, parts[1..])
  }

  /** The values written out in order, joined by `glue`, as PHP's
      `implode` does. */
  function Implode(glue: seq<byte>, vs: seq<Value>): seq<byte> {
    Join(glue, Rendered(vs))
  }

  /** The total length of the pieces. */
  function TotalLength(parts: seq<seq<byte>>): nat
    decreases |parts|
  {
    if parts == [] then 0 else |parts[0]| + TotalLength(parts[1..])
  }

  /** The joined string holds every piece and one glue per gap. */
  lemma {:induction false} JoinLength(glue: seq<byte>, parts: seq<seq<byte>>)
    ensures |Join(glue, parts)| == TotalLength(parts) + (if parts == [] then 0 else (|parts| - 1) * |glue|)
    decreases |parts|
  {
    if |parts| > 1 {
      JoinLength(glue, parts[1..]);
    }
  }

  /** `explode` on a one-byte separator `g`: the pieces between the
      copies of `g`, so `k` copies give `k + 1` pieces. */
  function Split(g: byte, s: seq<byte>): (r: seq<seq<byte>>)
    ensures r != []
    decreases |s|
  {
    var i := IndexOf(s, g);
    if i == |s| then [s] else [s[..i]] + Split(g, s[i + 1..])
  }

  /** Splitting the join of pieces free of `g` on `g` gives the pieces
      back; an empty list is the exception, as it joins to the same empty
      string as the list of one empty piece. */
  lemma {:induction false} SplitJoin(g: byte, parts: seq<seq<byte>>)
    requires parts != []
    requires forall i :: 0 <= i < |parts| ==> g !in parts[i]
    ensures Split(g, Join([g], parts)) == parts
    decreases |parts|
  {
    var s := Join([g], parts);
    if |parts| == 1 {
      IndexOfUnique(s, g, |s|);
    } else {
      var p := parts[0];
      assert s == p + [g] + Join([g], parts[1..]);
      IndexOfUnique(s, g, |p|);
      assert s[..|p|] == p && s[|p| + 1..] == Join([g], parts[1..]);
      SplitJoin(g, parts[1..]);
      assert [p] + parts[1..] == parts;
    }
  }

  /** A separator an integer's decimal form never contains. */
  predicate IsSeparator(g: byte) {
    g != Minus && !IsDigit(g)
  }

  /** Two integer lists that `implode` writes identically are identical:
      the decimal forms contain no separator, so `explode` recovers
      them, and each reads back as its integer. */
  lemma ImplodeIntsInjective(g: byte, a: seq<Value>, b: seq<Value>)
    requires IsSeparator(g) && AllOfKind(IntKind, a) && AllOfKind(IntKind, b)
    requires Implode([g], a) == Implode([g], b)
    ensures a == b
  {
    if a == [] && b == [] {
      return;
    } else if a == [] || b == [] {
      NonEmptyIntsImplode(g, if a == [] then b else a);
      return;
    }
    IntsFreeOf(g, a);
    IntsFreeOf(g, b);
    SplitJoin(g, Rendered(a));
    SplitJoin(g, Rendered(b));
    assert Rendered(a) == Rendered(b);
    forall i | 0 <= i < |a|
      ensures a[i] == b[i]
    {
      assert ValueString(a[i]) == ValueString(b[i]);
      IntStringInjective(a[i].n, b[i].n);
    }
  }

  /** No integer's decimal form contains a separator. */
  lemma IntsFreeOf(g: byte, vs: seq<Value>)
    requires IsSeparator(g) && AllOfKind(IntKind, vs)
    ensures forall i :: 0 <= i < |vs| ==> g !in Rendered(vs)[i]
  {
    forall i | 0 <= i < |vs|
      ensures g !in Rendered(vs)[i]
    {
      var r := IntString(vs[i].n);
      if vs[i].n < 0 {
        forall j | 1 <= j < |r|
          ensures r[j] != g
        {
          assert r[j] == r[1..][j - 1];
        }
      }
    }
  }

  /** A non-empty integer list is written as a non-empty string. */
  lemma NonEmptyIntsImplode(g: byte, vs: seq<Value>)
    requires vs != [] && AllOfKind(IntKind, vs)
    ensures Implode([g], vs) != []
  {
    var parts := Rendered(vs);
    JoinLength([g], parts);
    assert parts[0] != [];
  }
}
