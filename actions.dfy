/**
 * The server actions (app/actions.ts): liking a media item, saving a
 * guest's e-mail and posting a guest-book message.
 */
module Actions {
  import opened Types
  import opened Store

  const LikeFailed := "Failed to like media"
  const MediaNotFound := "Media not found"
  const EmailFailed := "Failed to save email"
  const MessageFailed := "Failed to save message"

  /** toggleLikePhoto's reply, `{ success, likes, error? }`. */
  datatype LikeResult = LikeResult(success: bool, likes: int, error: Option<string>)

  /**
   * `UPDATE "Media" SET "likes" = "likes" + 1 WHERE "id" = id`: every row
   * with that id gains exactly one like and no other row or column changes.
   */
  function IncrementLikes(rows: seq<Media>, id: string): (r: seq<Media>)
    ensures |r| == |rows|
    ensures forall i :: 0 <= i < |rows| && rows[i].id != id ==> r[i] == rows[i]
    ensures forall i :: 0 <= i < |rows| && rows[i].id == id ==> r[i] == rows[i].(likes := rows[i].likes + 1)
  {
    if rows == [] then []
    else
      var head := if rows[0].id == id then rows[0].(likes := rows[0].likes + 1) else rows[0];
      [head] + IncrementLikes(rows[1..], id)
  }

  /** The position of the row with `id`, or -1 when there is none. */
  function IndexOf(rows: seq<Media>, id: string): (i: int)
    ensures -1 <= i < |rows|
    ensures i == -1 <==> !HasId(rows, id)
    ensures 0 <= i ==> rows[i].id == id
  {
    if rows == [] then -1
    else if rows[0].id == id then 0
    else
      var k := IndexOf(rows[1..], id);
      assert forall m :: m in rows[1..] ==> m in rows;
      if k == -1 then -1 else k + 1
  }

  /**
   * toggleLikePhoto: add one like to the item and return its new count. An
   * unknown id changes nothing and reports "Media not found"; a throwing
   * query changes nothing and reports "Failed to like media".
   */
  method ToggleLikePhoto(table: MediaTable, mediaId: string, dbFails: bool) returns (r: LikeResult)
    requires table.Valid()
    modifies table
    ensures table.Valid()
    ensures dbFails ==> r == LikeResult(false, 0, Some(LikeFailed)) && table.rows == old(table.rows)
    ensures !dbFails && !HasId(old(table.rows), mediaId) ==>
      r == LikeResult(false, 0, Some(MediaNotFound)) && table.rows == old(table.rows)
    ensures !dbFails && HasId(old(table.rows), mediaId) ==>
      && table.rows == IncrementLikes(old(table.rows), mediaId)
      && r.success && r.error == None
      && exists i :: 0 <= i < |table.rows| && old(table.rows)[i].id == mediaId
                  && r.likes == table.rows[i].likes == old(table.rows)[i].likes + 1
  {
    if dbFails {
      return LikeResult(false, 0, Some(LikeFailed));
    }
    var i := IndexOf(table.rows, mediaId);
    if i < 0 {
      return LikeResult(false, 0, Some(MediaNotFound));
    }
    var updated := IncrementLikes(table.rows, mediaId);
    assert Ids(updated) == Ids(table.rows);
    table.rows := updated;
    r := LikeResult(true, updated[i].likes, None);
  }

  /** The table after `k` successful likes of `id`. */
  function IncrementTimes(rows: seq<Media>, id: string, k: nat): seq<Media> {
    if k == 0 then rows else IncrementLikes(IncrementTimes(rows, id, k - 1), id)
  }

  /**
   * No like is lost: after `k` likes of a row its count has grown by exactly
   * `k`, and rows with another id are as they were.
   */
  lemma {:induction false} NoLostUpdates(rows: seq<Media>, id: string, k: nat, i: nat)
    requires i < |rows| && rows[i].id == id
    ensures |IncrementTimes(rows, id, k)| == |rows|
    ensures IncrementTimes(rows, id, k)[i] == rows[i].(likes := rows[i].likes + k)
    ensures forall j :: 0 <= j < |rows| && rows[j].id != id ==> IncrementTimes(rows, id, k)[j] == rows[j]
  {
    if k > 0 {
      NoLostUpdates(rows, id, k - 1, i);
    }
  }

  /** `findUnique` then `update` or `create`: the e-mail table after saveEmail succeeds. */
  function Upsert(rows: map<string, Email>, name: string, email: string, newId: string, now: int): map<string, Email> {
    if email in rows then rows[email := rows[email].(name := name)]
    else rows[email := Email(newId, email, name, now)]
  }

  /** saveEmail adds a row only for an e-mail the table does not have yet. */
  lemma UpsertCount(rows: map<string, Email>, name: string, email: string, newId: string, now: int)
    ensures |Upsert(rows, name, email, newId, now)| == if email in rows then |rows| else |rows| + 1
  {
    if email in rows {
      assert Upsert(rows, name, email, newId, now).Keys == rows.Keys;
    }
  }

  /** Saving the same e-mail and name again changes nothing. */
  lemma UpsertIdempotent(rows: map<string, Email>, name: string, email: string, newId: string, now: int, laterId: string, later: int)
    ensures Upsert(Upsert(rows, name, email, newId, now), name, email, laterId, later) == Upsert(rows, name, email, newId, now)
  {
  }

  /**
   * saveEmail: an existing e-mail only has its name updated; a new one gets
   * one new row with a fresh id and the current time. Any throwing step
   * changes nothing and reports "Failed to save email".
   */
  method SaveEmail(table: EmailTable, name: string, email: string, newId: string, now: int, dbFails: bool)
    returns (r: Result<Email>)
    requires table.Valid()
    modifies table
    ensures table.Valid()
    ensures dbFails ==> r == Failure(EmailFailed) && table.rows == old(table.rows)
    ensures !dbFails ==> table.rows.Keys == old(table.rows).Keys + {email}
    ensures !dbFails ==> forall e :: e in old(table.rows) && e != email ==> table.rows[e] == old(table.rows)[e]
    ensures !dbFails && email in old(table.rows) ==> table.rows[email] == old(table.rows)[email].(name := name)
    ensures !dbFails && email !in old(table.rows) ==> table.rows[email] == Email(newId, email, name, now)
    ensures !dbFails ==> table.rows == Upsert(old(table.rows), name, email, newId, now) && r == Success(table.rows[email])
  {
    if dbFails {
      return Failure(EmailFailed);
    }
    var existing := if email in table.rows then Some(table.rows[email]) else None;
    if existing.Some? {
      var updated := existing.value.(name := name);
      table.rows := table.rows[email := updated];
      r := Success(updated);
    } else {
      var created := Email(newId, email, name, now);
      table.rows := table.rows[email := created];
      r := Success(created);
    }
  }

  /**
   * saveMessage: insert one message with a fresh id and the current time and
   * return it; a failed insert changes nothing and reports
   * "Failed to save message".
   */
  method SaveMessage(table: MessageTable, content: string, name: string, newId: string, now: int, dbFails: bool)
    returns (r: Result<Message>)
    modifies table
    ensures dbFails ==> r == Failure(MessageFailed) && table.rows == old(table.rows)
    ensures !dbFails ==> r.Success? && r.value.content == content && r.value.name == name
    ensures !dbFails ==> r.value == Message(newId, content, name, now) && table.rows == old(table.rows) + [r.value]
  {
    if dbFails {
      return Failure(MessageFailed);
    }
    var createdMessage := Message(newId, content, name, now);
    table.rows := table.rows + [createdMessage];
    r := Success(createdMessage);
  }
}
