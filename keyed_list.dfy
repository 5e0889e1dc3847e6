/**
 * The list operations the user aggregate performs on its collections,
 * over a sequence whose elements are compared through a key projection:
 * LINQ `Any` and `FirstOrDefault` with a key-equality predicate, and
 * `List.Remove` of the element `FirstOrDefault` found.
 */
module KeyedList {
  import opened Wrappers

  /** The identity key: a list of strings is keyed by the strings themselves. */
  function Itself<T>(x: T): (y: T) { x }

  /** Some element of `s` has key `k` (`Any`). */
  predicate HasKey<T, K(==)>(s: seq<T>, key: T -> K, k: K)
    ensures HasKey(s, key, k) <==> k in (set i | 0 <= i < |s| :: key(s[i]))
  {
    exists i :: 0 <= i < |s| && key(s[i]) == k
  }

  /** No two elements of `s` share a key. */
  predicate KeysDistinct<T, K(==)>(s: seq<T>, key: T -> K)
  {
    forall i, j :: 0 <= i < j < |s| ==> key(s[i]) != key(s[j])
  }

  /** The index of the first element with key `k`, the one `FirstOrDefault` returns. */
  function FirstIndex<T, K(==)>(s: seq<T>, key: T -> K, k: K): (r: Option<nat>)
    ensures r.None? <==> !HasKey(s, key, k)
    ensures r.Some? ==> r.value < |s| && key(s[r.value]) == k
    ensures r.Some? ==> forall i :: 0 <= i < r.value ==> key(s[i]) != k
    decreases |s|
  {
    if |s| == 0 then None
    else if key(s[0]) == k then Some(0)
    else
      match FirstIndex(s[1..], key, k)
      case None => None
      case Some(j) => Some(j + 1)
  }

  /** Drops the element at index `i` and keeps the others in their order. */
  function RemoveAt<T>(s: seq<T>, i: nat): (r: seq<T>)
    requires i < |s|
    ensures |r| == |s| - 1
    ensures forall a :: 0 <= a < |r| ==> r[a] == s[if a < i then a else a + 1]
  {
    s[..i] + s[i + 1..]
  }

  /** `FirstOrDefault` on key `k`, then `Remove` of what it found; nothing when it found nothing. */
  function RemoveFirst<T, K(==)>(s: seq<T>, key: T -> K, k: K): (r: seq<T>)
    ensures !HasKey(s, key, k) ==> r == s
    ensures HasKey(s, key, k) ==> |r| == |s| - 1
    ensures multiset(r) <= multiset(s)
  {
    match FirstIndex(s, key, k)
    case None => s
    case Some(i) =>
      assert s == s[..i] + [s[i]] + s[i + 1..];
      RemoveAt(s, i)
  }

  /** Reference definition: every element of `s` whose key is not `k`, in order. */
  function WithoutKey<T, K(==)>(s: seq<T>, key: T -> K, k: K): (r: seq<T>)
    ensures !HasKey(r, key, k)
    ensures forall i :: 0 <= i < |r| ==> r[i] in s && key(r[i]) != k
    ensures forall i :: 0 <= i < |s| && key(s[i]) != k ==> s[i] in r
    ensures |r| <= |s|
  {
    if |s| == 0 then []
    else if key(s[0]) == k then WithoutKey(s[1..], key, k)
    else [s[0]] + WithoutKey(s[1..], key, k)
  }

  /** Appending an element whose key is new keeps the keys distinct, and only such an element does. */
  lemma AppendKeepsDistinct<T, K>(s: seq<T>, key: T -> K, x: T)
    requires KeysDistinct(s, key)
    ensures KeysDistinct(s + [x], key) <==> !HasKey(s, key, key(x))
  {
    var t := s + [x];
    if HasKey(s, key, key(x)) {
      var i :| 0 <= i < |s| && key(s[i]) == key(x);
      assert key(t[i]) == key(t[|s|]);
    }
  }

  /** Dropping one element never creates a repeated key. */
  lemma RemoveAtKeepsDistinct<T, K>(s: seq<T>, key: T -> K, i: nat)
    requires i < |s|
    requires KeysDistinct(s, key)
    ensures KeysDistinct(RemoveAt(s, i), key)
  {
  }

  /**
   * `RemoveFirst` drops exactly the first element with key `k`: given that
   * element's index, the result is the list without it, others in order.
   */
  lemma RemoveFirstAt<T, K>(s: seq<T>, key: T -> K, k: K, i: nat)
    requires i < |s| && key(s[i]) == k
    requires forall j :: 0 <= j < i ==> key(s[j]) != k
    ensures RemoveFirst(s, key, k) == s[..i] + s[i + 1..]
    ensures multiset(RemoveFirst(s, key, k)) + multiset{s[i]} == multiset(s)
  {
    var f := FirstIndex(s, key, k);
    assert f.Some?;
    assert f.value == i;
    assert s == s[..i] + [s[i]] + s[i + 1..];
  }

  /** On a list with distinct keys, removing the first match removes every match. */
  lemma {:induction false} RemoveFirstIsWithoutKey<T, K>(s: seq<T>, key: T -> K, k: K)
    requires KeysDistinct(s, key)
    ensures RemoveFirst(s, key, k) == WithoutKey(s, key, k)
    decreases |s|
  {
    if |s| == 0 {
    } else if key(s[0]) == k {
      forall j | 0 <= j < |s[1..]| ensures key(s[1..][j]) != k {
        assert key(s[0]) != key(s[j + 1]);
      }
      NoKeyWithoutKey(s[1..], key, k);
      assert RemoveAt(s, 0) == s[1..];
    } else {
      DistinctTail(s, key);
      RemoveFirstIsWithoutKey(s[1..], key, k);
      RemoveFirstCons(s, key, k);
    }
  }

  /** The tail of a list with distinct keys has distinct keys. */
  lemma DistinctTail<T, K>(s: seq<T>, key: T -> K)
    requires |s| > 0 && KeysDistinct(s, key)
    ensures KeysDistinct(s[1..], key)
  {
  }

  /** Past a head whose key is not `k`, removal happens in the tail. */
  lemma RemoveFirstCons<T, K>(s: seq<T>, key: T -> K, k: K)
    requires |s| > 0 && key(s[0]) != k
    ensures RemoveFirst(s, key, k) == [s[0]] + RemoveFirst(s[1..], key, k)
  {
  }

  /** When no element has key `k`, filtering on `k` leaves the list as it is. */
  lemma {:induction false} NoKeyWithoutKey<T, K>(s: seq<T>, key: T -> K, k: K)
    requires forall j :: 0 <= j < |s| ==> key(s[j]) != k
    ensures WithoutKey(s, key, k) == s
    decreases |s|
  {
    if |s| > 0 {
      NoKeyWithoutKey(s[1..], key, k);
      assert s == [s[0]] + s[1..];
    }
  }

  /** On distinct keys, removal keeps them distinct and leaves no element with key `k`. */
  lemma RemoveFirstKeepsDistinct<T, K>(s: seq<T>, key: T -> K, k: K)
    requires KeysDistinct(s, key)
    ensures KeysDistinct(RemoveFirst(s, key, k), key)
    ensures !HasKey(RemoveFirst(s, key, k), key, k)
    ensures forall i :: 0 <= i < |s| && key(s[i]) != k ==> s[i] in RemoveFirst(s, key, k)
  {
  }

  /** Removing by the key of an element just appended, when that key was new, undoes the append. */
  lemma RemoveFirstAfterAppend<T, K>(s: seq<T>, key: T -> K, x: T)
    requires !HasKey(s, key, key(x))
    ensures RemoveFirst(s + [x], key, key(x)) == s
  {
    var t := s + [x];
    assert forall j :: 0 <= j < |s| ==> key(t[j]) != key(x) by {
      forall j | 0 <= j < |s| ensures key(t[j]) != key(x) {
        assert t[j] == s[j];
      }
    }
    RemoveFirstAt(t, key, key(x), |s|);
    assert t[..|s|] + t[|s| + 1..] == s;
  }

  /** With the identity key, `HasKey` is plain membership (`List.Contains`). */
  lemma HasKeyItself<T>(s: seq<T>, x: T)
    ensures HasKey(s, Itself, x) <==> x in s
  {
  }

  /** No key of `t` occurs among the keys of `s`. */
  predicate NoSharedKey<T, K(==)>(s: seq<T>, t: seq<T>, key: T -> K)
  {
    forall i, j :: 0 <= i < |s| && 0 <= j < |t| ==> key(s[i]) != key(t[j])
  }

  /**
   * An unchecked `AddRange` keeps keys distinct exactly when both parts have
   * distinct keys and share none: any shared or internally repeated key in
   * the appended part produces a repeated key.
   */
  lemma ConcatKeepsDistinct<T, K>(s: seq<T>, t: seq<T>, key: T -> K)
    ensures KeysDistinct(s + t, key) <==>
              KeysDistinct(s, key) && KeysDistinct(t, key) && NoSharedKey(s, t, key)
  {
    var u := s + t;
    if KeysDistinct(u, key) {
      forall i, j | 0 <= i < j < |s| ensures key(s[i]) != key(s[j]) {
        assert u[i] == s[i] && u[j] == s[j];
      }
      forall i, j | 0 <= i < j < |t| ensures key(t[i]) != key(t[j]) {
        assert u[|s| + i] == t[i] && u[|s| + j] == t[j];
      }
      forall i, j | 0 <= i < |s| && 0 <= j < |t| ensures key(s[i]) != key(t[j]) {
        assert u[i] == s[i] && u[|s| + j] == t[j];
      }
    }
  }
}
