/**
 The standard library's algorithms on ordered ranges, as the tree code uses them. The order is given by a key: the
 address behind a Quark, or the address of a node. Nothing is known of it but that different ids have different keys.
 */
module SortedRanges {
  import opened Prelude

  type Key = Mid -> int

  ghost predicate Injective(key: Key) {
    forall x, y :: key(x) == key(y) ==> x == y
  }

  ghost predicate Ascending(s: seq<Mid>, key: Key) {
    forall i, j :: 0 <= i < j < |s| ==> key(s[i]) < key(s[j])
  }

  lemma AscendingDistinct(s: seq<Mid>, key: Key)
    requires Ascending(s, key)
    ensures Distinct(s)
  {
  }

  lemma {:induction false} LeastExists(s: set<Mid>, key: Key)
    requires s != {}
    ensures exists m :: m in s && forall x :: x in s ==> key(m) <= key(x)
    decreases s
  {
    var y :| y in s;
    if s == {y} {
    } else {
      LeastExists(s - {y}, key);
      var m :| m in s - {y} && forall x :: x in s - {y} ==> key(m) <= key(x);
      var least := if key(m) <= key(y) then m else y;
      assert least in s && forall x :: x in s ==> key(least) <= key(x);
    }
  }

  /** Putting a least element in front keeps the order. */
  lemma HeadFirst(m: Mid, rest: seq<Mid>, key: Key)
    requires Ascending(rest, key) && forall x :: x in rest ==> key(m) < key(x)
    ensures Ascending([m] + rest, key)
  {
    var s := [m] + rest;
    forall i, j | 0 <= i < j < |s| ensures key(s[i]) < key(s[j]) {
      assert s[j] == rest[j - 1];
      assert rest[j - 1] in rest;
    }
  }

  lemma Tail(s: seq<Mid>, key: Key)
    requires s != [] && Ascending(s, key)
    ensures Ascending(s[1..], key) && forall x :: x in s[1..] ==> key(s[0]) < key(x)
  {
  }

  /** The set as iterating over a std::set or std::map with this order visits it. */
  function InOrder(s: set<Mid>, key: Key): (r: seq<Mid>)
    requires Injective(key)
    ensures Ascending(r, key) && forall x :: x in r <==> x in s
    decreases s
  {
    if s == {} then []
    else
      LeastExists(s, key);
      var m :| m in s && forall x :: x in s ==> key(m) <= key(x);
      var rest := InOrder(s - {m}, key);
      HeadFirst(m, rest, key);
      [m] + rest
  }

  function SetDifference(a: seq<Mid>, b: seq<Mid>, key: Key): seq<Mid>
    decreases |a| + |b|
  {
    if a == [] then []
    else if b == [] then a
    else if key(a[0]) < key(b[0]) then [a[0]] + SetDifference(a[1..], b, key)
    else if key(b[0]) < key(a[0]) then SetDifference(a, b[1..], key)
    else SetDifference(a[1..], b[1..], key)
  }

  function SetUnion(a: seq<Mid>, b: seq<Mid>, key: Key): seq<Mid>
    decreases |a| + |b|
  {
    if a == [] then b
    else if b == [] then a
    else if key(a[0]) < key(b[0]) then [a[0]] + SetUnion(a[1..], b, key)
    else if key(b[0]) < key(a[0]) then [b[0]] + SetUnion(a, b[1..], key)
    else [a[0]] + SetUnion(a[1..], b[1..], key)
  }

  /**
   Whatever order the ranges are really in, the algorithm keeps elements of the first range in their places and drops
   only elements that the second range has too.
   */
  lemma {:induction false} DifferenceInAnyOrder(a: seq<Mid>, b: seq<Mid>, key: Key, order: Key)
    requires Injective(key) && Ascending(a, order)
    ensures Ascending(SetDifference(a, b, key), order)
    ensures forall x :: x in SetDifference(a, b, key) ==> x in a
    ensures forall x :: x in a && x !in b ==> x in SetDifference(a, b, key)
    decreases |a| + |b|
  {
    if a != [] && b != [] {
      Tail(a, order);
      assert a == [a[0]] + a[1..] && b == [b[0]] + b[1..];
      if key(a[0]) < key(b[0]) {
        DifferenceInAnyOrder(a[1..], b, key, order);
        HeadFirst(a[0], SetDifference(a[1..], b, key), order);
      } else if key(b[0]) < key(a[0]) {
        DifferenceInAnyOrder(a, b[1..], key, order);
      } else {
        DifferenceInAnyOrder(a[1..], b[1..], key, order);
      }
    }
  }

  /** On ranges that are in order, the algorithm is set difference. */
  lemma {:induction false} DifferenceInOrder(a: seq<Mid>, b: seq<Mid>, key: Key)
    requires Injective(key) && Ascending(a, key) && Ascending(b, key)
    ensures Ascending(SetDifference(a, b, key), key)
    ensures forall x :: x in SetDifference(a, b, key) <==> x in a && x !in b
    decreases |a| + |b|
  {
    if a != [] && b != [] {
      Tail(a, key);
      Tail(b, key);
      assert a == [a[0]] + a[1..] && b == [b[0]] + b[1..];
      if key(a[0]) < key(b[0]) {
        DifferenceInOrder(a[1..], b, key);
        HeadFirst(a[0], SetDifference(a[1..], b, key), key);
      } else if key(b[0]) < key(a[0]) {
        DifferenceInOrder(a, b[1..], key);
      } else {
        DifferenceInOrder(a[1..], b[1..], key);
      }
    }
  }

  /** On ranges that are in order, the union is in order and has the elements of both. */
  lemma {:induction false} UnionInOrder(a: seq<Mid>, b: seq<Mid>, key: Key)
    requires Injective(key) && Ascending(a, key) && Ascending(b, key)
    ensures Ascending(SetUnion(a, b, key), key)
    ensures forall x :: x in SetUnion(a, b, key) <==> x in a || x in b
    decreases |a| + |b|
  {
    if a != [] && b != [] {
      Tail(a, key);
      Tail(b, key);
      assert a == [a[0]] + a[1..] && b == [b[0]] + b[1..];
      if key(a[0]) < key(b[0]) {
        UnionInOrder(a[1..], b, key);
        HeadFirst(a[0], SetUnion(a[1..], b, key), key);
      } else if key(b[0]) < key(a[0]) {
        UnionInOrder(a, b[1..], key);
        HeadFirst(b[0], SetUnion(a, b[1..], key), key);
      } else {
        UnionInOrder(a[1..], b[1..], key);
        HeadFirst(a[0], SetUnion(a[1..], b[1..], key), key);
      }
    }
  }

  /** What walking two ordered ranges side by side finds in both. */
  function Common(a: seq<Mid>, b: seq<Mid>, key: Key): seq<Mid>
    decreases |a| + |b|
  {
    if a == [] || b == [] then []
    else if key(a[0]) < key(b[0]) then Common(a[1..], b, key)
    else if key(b[0]) < key(a[0]) then Common(a, b[1..], key)
    else [a[0]] + Common(a[1..], b[1..], key)
  }

  lemma {:induction false} CommonInOrder(a: seq<Mid>, b: seq<Mid>, key: Key)
    requires Injective(key) && Ascending(a, key) && Ascending(b, key)
    ensures Ascending(Common(a, b, key), key)
    ensures forall x :: x in Common(a, b, key) <==> x in a && x in b
    decreases |a| + |b|
  {
    if a != [] && b != [] {
      Tail(a, key);
      Tail(b, key);
      assert a == [a[0]] + a[1..] && b == [b[0]] + b[1..];
      if key(a[0]) < key(b[0]) {
        CommonInOrder(a[1..], b, key);
      } else if key(b[0]) < key(a[0]) {
        CommonInOrder(a, b[1..], key);
      } else {
        CommonInOrder(a[1..], b[1..], key);
        HeadFirst(a[0], Common(a[1..], b[1..], key), key);
      }
    }
  }
}
