/** The elements a sorted list holds (PHP's `int|string`), the kind a list
    locks onto, and the three-way comparison the list orders them by. */
module Values {
  import opened Wrappers

  /** One byte of a PHP string; PHP strings are byte strings. */
  newtype byte = b: int | 0 <= b < 256

  /** A list element: an integer or a byte string. */
  datatype Value = Int(n: int) | Str(bytes: seq<byte>)

  /** The kind a list accepts once it has seen its first value. */
  datatype Kind = IntKind | StringKind

  /** The only failure of the list: a value whose kind differs from the
      kind the list is locked to. */
  datatype Error = TypeMismatch(locked: Kind)

  /** The kind of a value: `IntKind` for an integer, `StringKind` for a
      string. */
  function KindOf(v: Value): Kind {
    if v.Int? then IntKind else StringKind
  }

  /** The marker `getType()` reports for a kind. */
  function TypeName(k: Kind): string {
    match k
    case IntKind => "int"
    case StringKind => "string"
  }

  /** Whether a list whose type marker is `t` accepts `v`: an unset marker
      accepts anything, a set one only values of its kind. */
  predicate Admits(t: Option<Kind>, v: Value) {
    t == None || t == Some(KindOf(v))
  }

  /** PHP's `$a <=> $b` on two integers. */
  function IntCmp(a: int, b: int): (r: int)
    ensures -1 <= r <= 1
    ensures r < 0 <==> a < b
    ensures r == 0 <==> a == b
  {
    if a < b then -1 else if a == b then 0 else 1
  }

  /** PHP's `strcmp`: byte-wise lexicographic comparison, a proper prefix
      sorting first. Only the sign is significant. */
  function StrCmp(a: seq<byte>, b: seq<byte>): (r: int)
    ensures -1 <= r <= 1
    ensures r == 0 <==> a == b
    decreases |a|
  {
    if a == [] && b == [] then 0
    else if a == [] then -1
    else if b == [] then 1
    else if a[0] < b[0] then -1
    else if a[0] > b[0] then 1
    else
      var r := StrCmp(a[1..], b[1..]);
      assert r == 0 ==> a == [a[0]] + a[1..] == [b[0]] + b[1..] == b;
      r
  }

  /** The list's `compare`: dispatches on the list's locked kind, not on the
      values; both values have that kind because the type check runs first. */
  function Compare(k: Kind, a: Value, b: Value): (r: int)
    requires KindOf(a) == k && KindOf(b) == k
    ensures -1 <= r <= 1
    ensures r == 0 <==> a == b
    ensures k == IntKind ==> (r < 0 <==> a.n < b.n)
  {
    if k == IntKind then IntCmp(a.n, b.n) else StrCmp(a.bytes, b.bytes)
  }

  /** Swapping the operands of `strcmp` negates its result. */
  lemma {:induction false} StrCmpAntisymmetric(a: seq<byte>, b: seq<byte>)
    ensures StrCmp(a, b) == -StrCmp(b, a)
    decreases |a|
  {
    if a != [] && b != [] && a[0] == b[0] {
      StrCmpAntisymmetric(a[1..], b[1..]);
    }
  }

  /** `strcmp` orders byte strings transitively. */
  lemma {:induction false} StrCmpTransitive(a: seq<byte>, b: seq<byte>, c: seq<byte>)
    requires StrCmp(a, b) <= 0 && StrCmp(b, c) <= 0
    ensures StrCmp(a, c) <= 0
    decreases |a|
  {
    if a != [] && b != [] && c != [] && a[0] == b[0] == c[0] {
      StrCmpTransitive(a[1..], b[1..], c[1..]);
    }
  }

  /** A proper prefix sorts strictly before the longer string. */
  lemma {:induction false} StrCmpPrefix(a: seq<byte>, b: seq<byte>)
    requires |a| < |b| && a == b[..|a|]
    ensures StrCmp(a, b) < 0
    decreases |a|
  {
    if a != [] {
      assert a[1..] == b[1..][..|a| - 1];
      StrCmpPrefix(a[1..], b[1..]);
    }
  }

  /** The first differing byte decides the order. */
  lemma {:induction false} StrCmpFirstDifference(a: seq<byte>, b: seq<byte>, i: nat)
    requires i < |a| && i < |b| && a[..i] == b[..i] && a[i] < b[i]
    ensures StrCmp(a, b) < 0
    decreases i
  {
    if i > 0 {
      assert a[0] == a[..i][0] == b[..i][0] == b[0];
      assert a[1..][..i - 1] == a[..i][1..] == b[..i][1..] == b[1..][..i - 1];
      StrCmpFirstDifference(a[1..], b[1..], i - 1);
    }
  }

  /** `compare` is antisymmetric for both kinds. */
  lemma CompareAntisymmetric(k: Kind, a: Value, b: Value)
    requires KindOf(a) == k && KindOf(b) == k
    ensures Compare(k, a, b) == -Compare(k, b, a)
  {
    if k == StringKind {
      StrCmpAntisymmetric(a.bytes, b.bytes);
    }
  }

  /** `compare` is transitive for both kinds, so with antisymmetry and
      "zero exactly on equal values" it is a total order on one kind. */
  lemma CompareTransitive(k: Kind, a: Value, b: Value, c: Value)
    requires KindOf(a) == k && KindOf(b) == k && KindOf(c) == k
    requires Compare(k, a, b) <= 0 && Compare(k, b, c) <= 0
    ensures Compare(k, a, c) <= 0
  {
    if k == StringKind {
      StrCmpTransitive(a.bytes, b.bytes, c.bytes);
    }
  }

  /** Strictly below followed by at most is strictly below. */
  lemma CompareStrictTransitive(k: Kind, a: Value, b: Value, c: Value)
    requires KindOf(a) == k && KindOf(b) == k && KindOf(c) == k
    requires Compare(k, a, b) < 0 && Compare(k, b, c) <= 0
    ensures Compare(k, a, c) < 0
  {
    CompareTransitive(k, a, b, c);
    if a == c {
      CompareAntisymmetric(k, a, b);
    }
  }
}
