/**
 * The URL probe the clean-up passes use, and the split of a table's rows
 * into those whose file still answers and those whose file is gone.
 */
module Probe {
  import opened Types
  import opened Store

  /**
   * isMediaUrlValid: an empty URL is invalid without any request; otherwise
   * the verdict is the HEAD request's, which `headOk` abstracts (a request
   * that throws reads as false). isImageUrlValid is the same probe.
   */
  function IsMediaUrlValid(headOk: string -> bool, url: string): (valid: bool)
    ensures valid ==> url != ""
    ensures url != "" ==> valid == headOk(url)
  {
    url != "" && headOk(url)
  }

  /** The rows whose URL passes the probe, in retrieval order. */
  function ValidRows(headOk: string -> bool, rows: seq<Media>): seq<Media> {
    Filter((m: Media) => IsMediaUrlValid(headOk, m.url), rows)
  }

  /** The rows whose URL fails the probe, in retrieval order. */
  function InvalidRows(headOk: string -> bool, rows: seq<Media>): seq<Media> {
    Filter((m: Media) => !IsMediaUrlValid(headOk, m.url), rows)
  }

  /**
   * The loop of cleanupDeletedMedia (and of the legacy cleanupDeletedPhotos):
   * probe every row and push the id of each one that fails.
   */
  method CollectInvalidIds(headOk: string -> bool, rows: seq<Media>) returns (ids: seq<string>)
    ensures ids == Ids(InvalidRows(headOk, rows))
    ensures forall m :: m in rows && !IsMediaUrlValid(headOk, m.url) ==> m.id in ids
    ensures forall id :: id in ids ==> exists m :: m in rows && m.id == id && !IsMediaUrlValid(headOk, m.url)
  {
    ids := [];
    for i := 0 to |rows|
      invariant ids == Ids(InvalidRows(headOk, rows[..i]))
    {
      ProbeStep(headOk, rows, i);
      if !IsMediaUrlValid(headOk, rows[i].url) {
        ids := ids + [rows[i].id];
      }
    }
    assert rows[..|rows|] == rows;
  }

  /**
   * The loop of the legacy getPhotos: every row goes either to the list of
   * valid rows or, by its id, to the list of invalid ids.
   */
  method SplitByProbe(headOk: string -> bool, rows: seq<Media>) returns (valid: seq<Media>, invalidIds: seq<string>)
    ensures valid == ValidRows(headOk, rows)
    ensures invalidIds == Ids(InvalidRows(headOk, rows))
    ensures |valid| + |invalidIds| == |rows|
  {
    valid, invalidIds := [], [];
    for i := 0 to |rows|
      invariant valid == ValidRows(headOk, rows[..i])
      invariant invalidIds == Ids(InvalidRows(headOk, rows[..i]))
    {
      ProbeStep(headOk, rows, i);
      if IsMediaUrlValid(headOk, rows[i].url) {
        valid := valid + [rows[i]];
      } else {
        invalidIds := invalidIds + [rows[i].id];
      }
    }
    assert rows[..|rows|] == rows;
    Partition(headOk, rows);
  }

  /** Probing one more row extends exactly one of the two lists. */
  lemma ProbeStep(headOk: string -> bool, rows: seq<Media>, i: nat)
    requires i < |rows|
    ensures ValidRows(headOk, rows[..i + 1])
         == ValidRows(headOk, rows[..i]) + if IsMediaUrlValid(headOk, rows[i].url) then [rows[i]] else []
    ensures Ids(InvalidRows(headOk, rows[..i + 1]))
         == Ids(InvalidRows(headOk, rows[..i])) + if IsMediaUrlValid(headOk, rows[i].url) then [] else [rows[i].id]
  {
    assert rows[..i + 1] == rows[..i] + [rows[i]];
    FilterAppend((m: Media) => IsMediaUrlValid(headOk, m.url), rows[..i], rows[i]);
    FilterAppend((m: Media) => !IsMediaUrlValid(headOk, m.url), rows[..i], rows[i]);
    IdsAppend(InvalidRows(headOk, rows[..i]), rows[i]);
  }

  /** Every row is in exactly one of the two lists, as often as the table has it. */
  lemma Partition(headOk: string -> bool, rows: seq<Media>)
    ensures multiset(ValidRows(headOk, rows)) + multiset(InvalidRows(headOk, rows)) == multiset(rows)
    ensures |ValidRows(headOk, rows)| + |InvalidRows(headOk, rows)| == |rows|
  {
    FilterCount((m: Media) => IsMediaUrlValid(headOk, m.url), rows);
    FilterCount((m: Media) => !IsMediaUrlValid(headOk, m.url), rows);
    assert multiset(ValidRows(headOk, rows)) + multiset(InvalidRows(headOk, rows)) == multiset(rows);
    assert |multiset(rows)| == |rows|;
  }

  /**
   * With unique ids, a row's id is among the invalid ids collected from any
   * listing of the same rows exactly when the row itself fails the probe.
   */
  lemma InvalidIdsExact(headOk: string -> bool, rows: seq<Media>, listed: seq<Media>)
    requires UniqueIds(rows)
    requires multiset(listed) == multiset(rows)
    ensures forall m :: m in rows ==> (m.id in Ids(InvalidRows(headOk, listed)) <==> !IsMediaUrlValid(headOk, m.url))
  {
    assert forall m :: m in listed <==> m in multiset(rows);
    forall m | m in rows && m.id in Ids(InvalidRows(headOk, listed))
      ensures !IsMediaUrlValid(headOk, m.url)
    {
      var n :| n in InvalidRows(headOk, listed) && n.id == m.id;
      var i :| 0 <= i < |rows| && rows[i] == m;
      var j :| 0 <= j < |rows| && rows[j] == n;
      assert i == j;
    }
  }

  /**
   * Deleting by the collected ids removes exactly the rows that fail the
   * probe and keeps the others in order.
   */
  lemma DeleteInvalidKeepsValid(headOk: string -> bool, rows: seq<Media>, ids: seq<string>)
    requires forall m :: m in rows ==> (m.id in ids <==> !IsMediaUrlValid(headOk, m.url))
    ensures DeleteManyIdIn(rows, ids) == ValidRows(headOk, rows)
  {
    FilterAgree((m: Media) => m.id !in ids, (m: Media) => IsMediaUrlValid(headOk, m.url), rows);
  }

  /** Once the failing rows are gone, a second pass under the same probe finds nothing. */
  lemma {:induction false} NothingInvalidAfterCleanup(headOk: string -> bool, rows: seq<Media>)
    ensures InvalidRows(headOk, ValidRows(headOk, rows)) == []
    ensures ValidRows(headOk, ValidRows(headOk, rows)) == ValidRows(headOk, rows)
  {
    var kept := ValidRows(headOk, rows);
    FilterKeepsAll((m: Media) => IsMediaUrlValid(headOk, m.url), kept);
    Partition(headOk, kept);
  }

  /** When no row fails the probe, the valid rows are the whole table. */
  lemma AllValidUnchanged(headOk: string -> bool, rows: seq<Media>)
    requires |InvalidRows(headOk, rows)| == 0
    ensures ValidRows(headOk, rows) == rows
  {
    assert forall m :: m in rows ==> m !in InvalidRows(headOk, rows);
    FilterKeepsAll((m: Media) => IsMediaUrlValid(headOk, m.url), rows);
  }
}
