/** Small value helpers shared by every component. */
module Common {
  datatype Option<+T> = None | Some(value: T)

  /** No element occurs twice. */
  ghost predicate Distinct<T>(s: seq<T>) {
    forall i, j :: 0 <= i < j < |s| ==> s[i] != s[j]
  }

  ghost function Elems<T>(s: seq<T>): set<T> {
    set x | x in s
  }

  /** s without its element at position k. */
  function Without<T>(s: seq<T>, k: nat): (r: seq<T>)
    requires k < |s|
    ensures |r| == |s| - 1
  {
    s[..k] + s[k+1..]
  }

  /** s with x put in front of position k. */
  function Insert<T>(s: seq<T>, k: nat, x: T): (r: seq<T>)
    requires k <= |s|
    ensures |r| == |s| + 1
  {
    s[..k] + [x] + s[k..]
  }

  lemma WithoutIsDistinct<T>(s: seq<T>, k: nat)
    requires k < |s| && Distinct(s)
    ensures Distinct(Without(s, k))
    ensures Elems(Without(s, k)) == Elems(s) - {s[k]}
  {
    var r := Without(s, k);
    forall x | x in Elems(s) - {s[k]} ensures x in Elems(r) {
      var i :| 0 <= i < |s| && s[i] == x;
      assert x == if i < k then r[i] else r[i - 1];
    }
    assert forall i :: 0 <= i < |r| ==> r[i] == if i < k then s[i] else s[i + 1];
  }

  lemma InsertIsDistinct<T>(s: seq<T>, k: nat, x: T)
    requires k <= |s| && Distinct(s) && x !in s
    ensures Distinct(Insert(s, k, x))
    ensures Elems(Insert(s, k, x)) == Elems(s) + {x}
  {
    InsertMembers(s, k, x);
  }

  /** What Insert keeps and adds. */
  lemma InsertMembers<T>(s: seq<T>, k: nat, x: T)
    requires k <= |s|
    ensures Insert(s, k, x)[k] == x
    ensures forall y | y in s :: y in Insert(s, k, x)
    ensures forall y | y in Insert(s, k, x) :: y == x || y in s
  {
    forall y | y in s ensures y in Insert(s, k, x) {
      var i :| 0 <= i < |s| && s[i] == y;
      InsertAt(s, k, x, i);
    }
  }

  lemma InsertAt<T>(s: seq<T>, k: nat, x: T, i: nat)
    requires k <= |s| && i < |s|
    ensures Insert(s, k, x)[if i < k then i else i + 1] == s[i]
  {
  }

  /** The position of the first occurrence of x. */
  function IndexOf<T(==)>(s: seq<T>, x: T): (k: nat)
    requires x in s
    ensures k < |s| && s[k] == x
    ensures forall i :: 0 <= i < k ==> s[i] != x
  {
    if s[0] == x then 0 else 1 + IndexOf(s[1..], x)
  }
}
