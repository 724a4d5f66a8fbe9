/**
 * The database's `orderBy` on a single column. The order among rows with
 * equal keys is left to the database. `SortBy` keeps them in retrieval
 * order (a stable insertion sort); the listings' contracts state only the
 * order and the multiplicity of rows, and the legacy photo listing takes
 * the database's listing as a parameter, any sorted permutation of the
 * table.
 */
module Ordering {
  import opened Types

  /** The two columns the listings sort on. */
  datatype Field = CreatedAt | LikeCount

  datatype Direction = Asc | Desc

  /** `{ [field]: dir }` as passed to `findMany`. */
  datatype OrderBy = OrderBy(field: Field, dir: Direction)

  function Key(f: Field, m: Media): int {
    match f
    case CreatedAt => m.createdAt
    case LikeCount => m.likes
  }

  /** `a` may be listed before `b` under `o`. */
  predicate Precedes(o: OrderBy, a: Media, b: Media) {
    match o.dir
    case Asc => Key(o.field, a) <= Key(o.field, b)
    case Desc => Key(o.field, a) >= Key(o.field, b)
  }

  predicate Sorted(o: OrderBy, s: seq<Media>) {
    forall i, j :: 0 <= i < j < |s| ==> Precedes(o, s[i], s[j])
  }

  /** Places `x` before the first element it may precede. */
  function Insert(o: OrderBy, x: Media, s: seq<Media>): (r: seq<Media>)
    requires Sorted(o, s)
    ensures Sorted(o, r)
    ensures multiset(r) == multiset(s) + multiset{x}
    ensures |r| == |s| + 1 && (r[0] == x || (s != [] && r[0] == s[0]))
  {
    if s == [] then [x]
    else if Precedes(o, x, s[0]) then [x] + s
    else
      var rest := Insert(o, x, s[1..]);
      assert s == [s[0]] + s[1..];
      assert Precedes(o, s[0], rest[0]);
      [s[0]] + rest
  }

  /** The rows of `s` listed in the order `o`. */
  function SortBy(o: OrderBy, s: seq<Media>): (r: seq<Media>)
    ensures Sorted(o, r)
    ensures multiset(r) == multiset(s)
  {
    if s == [] then []
    else
      assert s == [s[0]] + s[1..];
      Insert(o, s[0], SortBy(o, s[1..]))
  }

  /** Leaving rows out of a sorted list keeps it sorted. */
  lemma {:induction false} SubsequenceSorted(o: OrderBy, a: seq<Media>, b: seq<Media>)
    requires IsSubsequence(a, b) && Sorted(o, b)
    ensures Sorted(o, a)
    decreases |b|
  {
    if a != [] {
      assert b != [];
      if a[0] == b[0] && IsSubsequence(a[1..], b[1..]) {
        SubsequenceSorted(o, a[1..], b[1..]);
        forall k | 0 < k < |a|
          ensures Precedes(o, a[0], a[k])
        {
          SubsequenceElement(a[1..], b[1..], k - 1);
        }
      } else {
        SubsequenceSorted(o, a, b[1..]);
      }
    }
  }

  /** Every element of a subsequence is an element of the longer list. */
  lemma {:induction false} SubsequenceElement(a: seq<Media>, b: seq<Media>, k: nat)
    requires IsSubsequence(a, b) && k < |a|
    ensures a[k] in b
    decreases |b|
  {
    assert b != [];
    if a[0] == b[0] && IsSubsequence(a[1..], b[1..]) {
      if k > 0 {
        SubsequenceElement(a[1..], b[1..], k - 1);
      }
    } else {
      SubsequenceElement(a, b[1..], k);
    }
  }
}
