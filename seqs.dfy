/** The Python list operations the engine relies on: `in`, `index`, `remove`. */
module Seqs {

  /** No element occurs twice. */
  ghost predicate NoDup<T>(s: seq<T>) {
    forall i, j | 0 <= i < j < |s| :: s[i] != s[j]
  }

  /** The set of elements of a list. */
  ghost function Elements<T>(s: seq<T>): set<T> {
    set x | x in s
  }

  /** `a` can be obtained from `b` by deleting elements: `a` keeps `b`'s relative order. */
  ghost predicate Subseq<T>(a: seq<T>, b: seq<T>)
    decreases |b|
  {
    if b == [] then a == []
    else (a != [] && a[0] == b[0] && Subseq(a[1..], b[1..])) || Subseq(a, b[1..])
  }

  /** `list.index(x)`: the position of the first occurrence of `x`. */
  function IndexOf<T(==)>(s: seq<T>, x: T): (r: nat)
    requires x in s
    ensures r < |s| && s[r] == x
    ensures forall j | 0 <= j < r :: s[j] != x
  {
    if s[0] == x then 0 else 1 + IndexOf(s[1..], x)
  }

  /** `list.remove(x)`: drop the first occurrence of `x` (Python raises when `x` is absent). */
  function RemoveFirst<T(==)>(s: seq<T>, x: T): (r: seq<T>)
    requires x in s
    ensures |r| == |s| - 1
    ensures forall k {:trigger r[k]} | 0 <= k < |r| :: r[k] == if k < IndexOf(s, x) then s[k] else s[k + 1]
  {
    if s[0] == x then s[1..]
    else
      var t := RemoveFirst(s[1..], x);
      assert IndexOf(s, x) == 1 + IndexOf(s[1..], x);
      assert forall k | 1 <= k < |t| + 1 :: ([s[0]] + t)[k] == t[k - 1];
      [s[0]] + t
  }

  /** On a list without duplicates, `remove` deletes exactly that element and keeps the others. */
  lemma RemoveFirstNoDup<T>(s: seq<T>, x: T)
    requires x in s && NoDup(s)
    ensures NoDup(RemoveFirst(s, x))
    ensures Elements(RemoveFirst(s, x)) == Elements(s) - {x}
  {
    var i := IndexOf(s, x);
    var r := RemoveFirst(s, x);
    forall a, b | 0 <= a < b < |r| ensures r[a] != r[b] {
      var a' := if a < i then a else a + 1;
      var b' := if b < i then b else b + 1;
      assert r[a] == s[a'] && r[b] == s[b'];
    }
    forall y | y in Elements(s) - {x} ensures y in Elements(r) {
      var k :| 0 <= k < |s| && s[k] == y;
      assert k != i;
      if k < i { assert r[k] == y; } else { assert r[k - 1] == y; }
    }
    forall y | y in Elements(r) ensures y in Elements(s) - {x} {
      var k :| 0 <= k < |r| && r[k] == y;
      if k < i { assert s[k] == y; } else { assert s[k + 1] == y; }
    }
  }

  /** `remove` keeps every other element. */
  lemma RemoveFirstKeeps<T>(s: seq<T>, x: T, y: T)
    requires x in s && y in s && y != x
    ensures y in RemoveFirst(s, x)
  {
    var i := IndexOf(s, x);
    var k :| 0 <= k < |s| && s[k] == y;
    if k < i { assert RemoveFirst(s, x)[k] == y; } else { assert RemoveFirst(s, x)[k - 1] == y; }
  }

  /** A list without duplicates has as many distinct elements as entries. */
  lemma {:induction false} NoDupCard<T>(s: seq<T>)
    requires NoDup(s)
    ensures |Elements(s)| == |s|
  {
    if s != [] {
      var t := s[1..];
      assert NoDup(t) by {
        forall i, j | 0 <= i < j < |t| ensures t[i] != t[j] {
          assert t[i] == s[i + 1] && t[j] == s[j + 1];
        }
      }
      NoDupCard(t);
      assert s[0] !in Elements(t) by {
        forall k | 0 <= k < |t| ensures t[k] != s[0] { assert t[k] == s[k + 1]; }
      }
      assert Elements(s) == Elements(t) + {s[0]} by {
        assert s == [s[0]] + t;
      }
    }
  }

  /** Appending a fresh element keeps the list duplicate-free. */
  lemma AppendNoDup<T>(s: seq<T>, x: T)
    requires NoDup(s) && x !in s
    ensures NoDup(s + [x]) && Elements(s + [x]) == Elements(s) + {x}
  {
  }
}
