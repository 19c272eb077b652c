/** The list driven the way its own test suite drives it; each method's
    postcondition is what that test asserts, now proved from the list's
    contracts, including the tests that call the private `enforceType`
    and `compare` directly. `TypeOutlivesLastValue` and
    `ContainsLocksType` show the type marker outliving the values. The
    lemmas evaluate `add` and `remove` on the concrete contents the
    tests build. */
module Scenarios {
  import opened Wrappers
  import opened Values
  import opened SortedSeqs
  import opened Render
  import opened LinkedList

  // The test suite's strings, as ASCII bytes.
  const Apple: Value := Str([97, 112, 112, 108, 101])       // "apple"
  const Banana: Value := Str([98, 97, 110, 97, 110, 97])    // "banana"
  const Cherry: Value := Str([99, 104, 101, 114, 114, 121]) // "cherry"
  const A: Value := Str([97])   // "a"
  const B: Value := Str([98])   // "b"
  const X: Value := Str([120])  // "x"
  const Y: Value := Str([121])  // "y"
  const Z: Value := Str([122])  // "z"
  /** ASCII `|`. */
  const Bar: byte := 124

  /** The first value of a list is the whole list. */
  lemma InsertIntoEmpty(v: Value)
    ensures Insert(KindOf(v), [], v) == [v]
  {
  }

  /** A value below the only one goes in front of it. */
  lemma InsertBelowOne(k: Kind, a: Value, v: Value)
    requires KindOf(a) == k && KindOf(v) == k && Compare(k, v, a) < 0
    ensures Insert(k, [a], v) == [v, a]
  {
    InsertionPointUnique(k, [a], v, 0);
  }

  /** A value between two goes in the middle. */
  lemma InsertBetweenTwo(k: Kind, a: Value, b: Value, v: Value)
    requires KindOf(a) == k && KindOf(b) == k && KindOf(v) == k
    requires Compare(k, v, a) >= 0 && Compare(k, v, b) < 0
    ensures Insert(k, [a, b], v) == [a, v, b]
  {
    InsertionPointUnique(k, [a, b], v, 1);
    assert [a, b][..1] == [a] && [a, b][1..] == [b];
  }

  /** A value above two goes after both. */
  lemma InsertAboveTwo(k: Kind, a: Value, b: Value, v: Value)
    requires KindOf(a) == k && KindOf(b) == k && KindOf(v) == k
    requires Compare(k, v, a) >= 0 && Compare(k, v, b) >= 0
    ensures Insert(k, [a, b], v) == [a, b, v]
  {
    InsertionPointUnique(k, [a, b], v, 2);
    assert [a, b][..2] == [a, b] && [a, b][2..] == [];
  }

  /** Removing the middle one of three distinct values. */
  lemma RemoveMiddle<T>(a: T, b: T, c: T)
    requires a != b
    ensures b in [a, b, c] && RemoveFirst([a, b, c], b) == [a, c]
  {
    IndexOfUnique([a, b, c], b, 1);
    assert [a, b, c][..1] == [a] && [a, b, c][2..] == [c];
  }

  /** Integers come out ascending whatever order they went in. */
  method AddAndOrderWithInts() returns (values: seq<Value>)
    ensures values == [Int(1), Int(3), Int(5)]
  {
    var list := new SortedLinkedList();
    InsertIntoEmpty(Int(5));
    var o := list.Add(Int(5));
    InsertBelowOne(IntKind, Int(5), Int(1));
    o := list.Add(Int(1));
    InsertBetweenTwo(IntKind, Int(1), Int(5), Int(3));
    o := list.Add(Int(3));
    values := list.ToArray();
  }

  /** Strings come out in `strcmp` order. */
  method AddAndOrderWithStrings() returns (values: seq<Value>)
    ensures values == [Apple, Banana, Cherry]
  {
    var list := new SortedLinkedList();
    InsertIntoEmpty(Banana);
    var o := list.Add(Banana);
    InsertBelowOne(StringKind, Banana, Apple);
    o := list.Add(Apple);
    InsertAboveTwo(StringKind, Apple, Banana, Cherry);
    o := list.Add(Cherry);
    values := list.ToArray();
  }

  /** Removing a value that is there unlinks it and reports `true`. */
  method RemoveExistingValue() returns (removed: Result<bool, Error>, values: seq<Value>)
    ensures removed == Success(true) && values == [Int(1), Int(3)]
  {
    var list := new SortedLinkedList();
    InsertIntoEmpty(Int(2));
    var o := list.Add(Int(2));
    InsertBelowOne(IntKind, Int(2), Int(1));
    o := list.Add(Int(1));
    InsertAboveTwo(IntKind, Int(1), Int(2), Int(3));
    o := list.Add(Int(3));
    RemoveMiddle(Int(1), Int(2), Int(3));
    removed := list.Remove(Int(2));
    values := list.ToArray();
  }

  /** Removing a value that is not there reports `false`. */
  method RemoveMissingValue() returns (removed: Result<bool, Error>, values: seq<Value>)
    ensures removed == Success(false) && values == [Int(1)]
  {
    var list := new SortedLinkedList();
    InsertIntoEmpty(Int(1));
    var o := list.Add(Int(1));
    IndexOfUnique([Int(1)], Int(999), 1);
    removed := list.Remove(Int(999));
    values := list.ToArray();
  }

  /** A string is refused by a list of integers, and the list is left as
      it was. */
  method MixedTypesRefused() returns (outcome: Outcome<Error>, values: seq<Value>)
    ensures outcome == Fail(TypeMismatch(IntKind)) && values == [Int(1)]
  {
    var list := new SortedLinkedList();
    InsertIntoEmpty(Int(1));
    var o := list.Add(Int(1));
    outcome := list.Add(X);
    values := list.ToArray();
  }

  /** `isEmpty` before any value, after one, and after `clear`. */
  method IsEmptyAndClear() returns (initially: bool, filled: bool, cleared: bool)
    ensures initially && !filled && cleared
  {
    var list := new SortedLinkedList();
    initially := list.IsEmpty();
    InsertIntoEmpty(Int(1));
    var o := list.Add(Int(1));
    filled := list.IsEmpty();
    list.Clear();
    cleared := list.IsEmpty();
  }

  /** `contains` finds a value that was added and not one that was not. */
  method ContainsAddedValue() returns (present: Result<bool, Error>, absent: Result<bool, Error>)
    ensures present == Success(true) && absent == Success(false)
  {
    var list := new SortedLinkedList();
    InsertIntoEmpty(A);
    var o := list.Add(A);
    present := list.Contains(A);
    absent := list.Contains(B);
  }

  /** Three strings imploded: each one's bytes, glue between. */
  lemma ImplodeThree(glue: seq<byte>, a: Value, b: Value, c: Value)
    requires a.Str? && b.Str? && c.Str?
    ensures Implode(glue, [a, b, c]) == a.bytes + glue + b.bytes + glue + c.bytes
  {
    var parts := Rendered([a, b, c]);
    assert parts == [a.bytes, b.bytes, c.bytes];
    assert parts[1..] == [b.bytes, c.bytes] && parts[1..][1..] == [c.bytes];
    assert Join(glue, parts[1..]) == b.bytes + glue + c.bytes;
  }

  /** `toString()` joins with `", "`. */
  method ToStringDefaultGlue() returns (r: seq<byte>)
    ensures r == Apple.bytes + DefaultGlue + Banana.bytes + DefaultGlue + Cherry.bytes
  {
    var list := new SortedLinkedList();
    InsertIntoEmpty(Banana);
    var o := list.Add(Banana);
    InsertBelowOne(StringKind, Banana, Apple);
    o := list.Add(Apple);
    InsertAboveTwo(StringKind, Apple, Banana, Cherry);
    o := list.Add(Cherry);
    ImplodeThree(DefaultGlue, Apple, Banana, Cherry);
    r := list.ToString();
  }

  /** `toString('|')` joins with the glue it is given. */
  method ToStringCustomGlue() returns (r: seq<byte>)
    ensures r == Apple.bytes + [Bar] + Banana.bytes + [Bar] + Cherry.bytes
  {
    var list := new SortedLinkedList();
    InsertIntoEmpty(Banana);
    var o := list.Add(Banana);
    InsertBelowOne(StringKind, Banana, Apple);
    o := list.Add(Apple);
    InsertAboveTwo(StringKind, Apple, Banana, Cherry);
    o := list.Add(Cherry);
    ImplodeThree([Bar], Apple, Banana, Cherry);
    r := list.ToString([Bar]);
  }

  /** A new node holds its value and has no successor. */
  method NodeConstruction() returns (n: Node, m: Node)
    ensures n.value == Int(123) && n.next == null
    ensures m.value == Str([97, 98, 99]) && m.next == null
  {
    n := new Node(Int(123));
    m := new Node(Str([97, 98, 99]));
  }

  /** Setting `next` links one node to another. */
  method NodeLinking() returns (first: Node, second: Node)
    ensures first.next == second && second.next == null
  {
    first := new Node(Int(1));
    second := new Node(Int(2));
    first.next := second;
  }

  /** `getType` is unset, fixed by the first value, reset by `clear`. */
  method TypeFollowsFirstValue() returns (t0: Option<string>, t1: Option<string>, t2: Option<string>, t3: Option<string>)
    ensures t0 == None && t1 == Some("int") && t2 == None && t3 == Some("string")
  {
    var list := new SortedLinkedList();
    t0 := list.GetType();
    var o := list.Add(Int(10));
    t1 := list.GetType();
    list.Clear();
    t2 := list.GetType();
    o := list.Add(A);
    t3 := list.GetType();
  }

  /** `toArray` on an empty list, then on integers added out of order. */
  method ToArrayOfInts() returns (none: seq<Value>, ints: seq<Value>)
    ensures none == [] && ints == [Int(1), Int(2), Int(3)]
  {
    var list := new SortedLinkedList();
    none := list.ToArray();
    InsertIntoEmpty(Int(3));
    var o := list.Add(Int(3));
    InsertBelowOne(IntKind, Int(3), Int(1));
    o := list.Add(Int(1));
    InsertBetweenTwo(IntKind, Int(1), Int(3), Int(2));
    o := list.Add(Int(2));
    ints := list.ToArray();
  }

  /** After `clear`, a list that held integers takes strings. */
  method ToArrayOfStringsAfterClear() returns (strings: seq<Value>)
    ensures strings == [X, Y, Z]
  {
    var list := new SortedLinkedList();
    var o := list.Add(Int(3));
    list.Clear();
    InsertIntoEmpty(Z);
    o := list.Add(Z);
    InsertBelowOne(StringKind, Z, X);
    o := list.Add(X);
    InsertBetweenTwo(StringKind, X, Z, Y);
    o := list.Add(Y);
    strings := list.ToArray();
  }

  /** `enforceType` called directly: it locks an unset type, and after
      `clear` it locks the other one. */
  method EnforceTypeSetsType() returns (t1: Option<string>, t2: Option<string>)
    ensures t1 == Some("int") && t2 == Some("string")
  {
    var list := new SortedLinkedList();
    var o := list.EnforceType(Int(42));
    t1 := list.GetType();
    list.Clear();
    o := list.EnforceType(Str([104, 101, 108, 108, 111]));
    t2 := list.GetType();
  }

  /** `enforceType` called directly refuses a string once the type is
      `int`. */
  method EnforceTypeRefusesMixed() returns (outcome: Outcome<Error>)
    ensures outcome == Fail(TypeMismatch(IntKind))
  {
    var list := new SortedLinkedList();
    var o := list.EnforceType(Int(1));
    outcome := list.EnforceType(Str([110, 111, 116, 45, 105, 110, 116]));
  }

  /** `compare` on an integer list: negative, zero, positive. */
  method CompareInts() returns (lt: int, eq: int, gt: int)
    ensures lt < 0 && eq == 0 && gt > 0
  {
    var list := new SortedLinkedList();
    InsertIntoEmpty(Int(2));
    var o := list.Add(Int(2));
    var k := list.kind.value;
    lt := Compare(k, Int(1), Int(2));
    eq := Compare(k, Int(2), Int(2));
    gt := Compare(k, Int(3), Int(2));
  }

  /** `compare` on a string list follows `strcmp`. */
  method CompareStrings() returns (lt: int, eq: int, gt: int)
    ensures lt < 0 && eq == 0 && gt > 0
  {
    var list := new SortedLinkedList();
    InsertIntoEmpty(B);
    var o := list.Add(B);
    var k := list.kind.value;
    lt := Compare(k, A, B);
    eq := Compare(k, Str([99]), Str([99]));
    gt := Compare(k, Z, Y);
  }

  /** Removing the last value empties the list but keeps its type: a
      string is still refused afterwards. */
  method TypeOutlivesLastValue() returns (empty: bool, t: Option<string>, outcome: Outcome<Error>)
    ensures empty && t == Some("int")
    ensures outcome == Fail(TypeMismatch(IntKind))
  {
    var list := new SortedLinkedList();
    InsertIntoEmpty(Int(5));
    var o := list.Add(Int(5));
    var removed := list.Remove(Int(5));
    empty := list.IsEmpty();
    t := list.GetType();
    outcome := list.Add(X);
  }

  /** Asking an empty list whether it holds a value fixes its type. */
  method ContainsLocksType() returns (found: Result<bool, Error>, outcome: Outcome<Error>)
    ensures found == Success(false)
    ensures outcome == Fail(TypeMismatch(IntKind))
  {
    var list := new SortedLinkedList();
    found := list.Contains(Int(1));
    outcome := list.Add(X);
  }
}
