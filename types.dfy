/**
 * The records the wedding gallery stores (lib/types.ts) and the small
 * generic helpers the other modules share.
 */
module Types {

  datatype Option<T> = None | Some(value: T) {
    /** The value, or `default` when there is none (a destructuring default). */
    function GetOr(default: T): T {
      if Some? then value else default
    }
  }

  /** What a server action reports: a value, or the fixed error text it returns. */
  datatype Result<T> = Success(value: T) | Failure(error: string)

  /** The `type` column of a media record. */
  datatype MediaKind = Image | Video

  /**
   * A media record. `createdAt` is a timestamp in milliseconds; the optional
   * `size` and `duration` columns play no part in the modelled logic.
   */
  datatype Media = Media(
    id: string,
    url: string,
    name: string,
    kind: MediaKind,
    fileType: Option<string>,
    thumbnail: Option<string>,
    likes: int,
    createdAt: int)

  /** The legacy Photo type is declared as an alias of Media. */
  type Photo = Media

  datatype Email = Email(id: string, email: string, name: string, createdAt: int)

  datatype Message = Message(id: string, content: string, name: string, createdAt: int)

  /** `id` is the primary key: no two rows of a table share one. */
  predicate UniqueIds(rows: seq<Media>) {
    forall i, j :: 0 <= i < j < |rows| ==> rows[i].id != rows[j].id
  }

  /** Some row carries `id`. */
  predicate HasId(rows: seq<Media>, id: string) {
    exists m :: m in rows && m.id == id
  }

  /** The ids of `rows`, in order. */
  function Ids(rows: seq<Media>): (ids: seq<string>)
    ensures |ids| == |rows|
    ensures forall i :: 0 <= i < |rows| ==> ids[i] == rows[i].id
    ensures forall id :: id in ids <==> exists m :: m in rows && m.id == id
  {
    seq(|rows|, i requires 0 <= i < |rows| => rows[i].id)
  }

  /** Pushing a row pushes its id. */
  lemma IdsAppend(rows: seq<Media>, m: Media)
    ensures Ids(rows + [m]) == Ids(rows) + [m.id]
  {
    assert forall i :: 0 <= i < |rows| ==> (rows + [m])[i] == rows[i];
  }

  /** The elements of `s` that satisfy `p`, in their original order. */
  function Filter<T(!new)>(p: T -> bool, s: seq<T>): (r: seq<T>)
    ensures |r| <= |s|
    ensures forall x :: x in r <==> x in s && p(x)
  {
    if s == [] then []
    else (if p(s[0]) then [s[0]] else []) + Filter(p, s[1..])
  }

  /** A filter keeps every element that satisfies `p` as often as `s` has it, and no other. */
  lemma {:induction false} FilterCount<T(!new)>(p: T -> bool, s: seq<T>)
    ensures forall x :: multiset(Filter(p, s))[x] == if p(x) then multiset(s)[x] else 0
  {
    if s != [] {
      FilterCount(p, s[1..]);
      assert s == [s[0]] + s[1..];
    }
  }

  /** Filtering a list extended at the end: what a loop that pushes matching elements builds. */
  lemma {:induction false} FilterAppend<T(!new)>(p: T -> bool, s: seq<T>, x: T)
    ensures Filter(p, s + [x]) == Filter(p, s) + (if p(x) then [x] else [])
  {
    var t := s + [x];
    if s == [] {
      assert t == [x];
      assert Filter(p, t) == (if p(x) then [x] else []) + Filter(p, []);
    } else {
      assert t[0] == s[0] && t[1..] == s[1..] + [x];
      FilterAppend(p, s[1..], x);
      calc {
        Filter(p, t);
        (if p(s[0]) then [s[0]] else []) + Filter(p, s[1..] + [x]);
        (if p(s[0]) then [s[0]] else []) + (Filter(p, s[1..]) + (if p(x) then [x] else []));
        Filter(p, s) + (if p(x) then [x] else []);
      }
    }
  }

  /** Two tests that agree on every element of `s` select the same elements. */
  lemma {:induction false} FilterAgree<T(!new)>(p: T -> bool, q: T -> bool, s: seq<T>)
    requires forall x :: x in s ==> p(x) == q(x)
    ensures Filter(p, s) == Filter(q, s)
  {
    if s != [] {
      FilterAgree(p, q, s[1..]);
    }
  }

  /** A filter that every element passes keeps the whole list. */
  lemma {:induction false} FilterKeepsAll<T(!new)>(p: T -> bool, s: seq<T>)
    requires forall x :: x in s ==> p(x)
    ensures Filter(p, s) == s
  {
    if s != [] {
      assert forall x :: x in s[1..] ==> x in s;
      FilterKeepsAll(p, s[1..]);
      assert s == [s[0]] + s[1..];
    }
  }

  /** Leaving rows out of a table cannot make two of them share an id. */
  lemma {:induction false} FilterUnique(p: Media -> bool, rows: seq<Media>)
    requires UniqueIds(rows)
    ensures UniqueIds(Filter(p, rows))
  {
    if rows != [] {
      var rest := Filter(p, rows[1..]);
      assert UniqueIds(rows[1..]) by {
        forall i, j | 0 <= i < j < |rows[1..]|
          ensures rows[1..][i].id != rows[1..][j].id
        {
          assert rows[1..][i] == rows[i + 1] && rows[1..][j] == rows[j + 1];
        }
      }
      FilterUnique(p, rows[1..]);
      if p(rows[0]) {
        forall k | 0 <= k < |rest|
          ensures rest[k].id != rows[0].id
        {
          assert rest[k] in rows[1..];
        }
        assert Filter(p, rows) == [rows[0]] + rest;
      } else {
        assert Filter(p, rows) == rest;
      }
    }
  }

  /** `a` is `b` with some elements left out and the rest kept in order. */
  predicate IsSubsequence<T(==)>(a: seq<T>, b: seq<T>)
    decreases |b|
  {
    if a == [] then true
    else if b == [] then false
    else (a[0] == b[0] && IsSubsequence(a[1..], b[1..])) || IsSubsequence(a, b[1..])
  }

  /** A filter keeps the surviving elements in their original order. */
  lemma {:induction false} FilterIsSubsequence<T(!new)>(p: T -> bool, s: seq<T>)
    ensures IsSubsequence(Filter(p, s), s)
  {
    if s != [] {
      var rest := Filter(p, s[1..]);
      FilterIsSubsequence(p, s[1..]);
      if p(s[0]) {
        assert Filter(p, s) == [s[0]] + rest;
        assert ([s[0]] + rest)[1..] == rest;
      } else {
        assert Filter(p, s) == rest;
      }
    }
  }
}
