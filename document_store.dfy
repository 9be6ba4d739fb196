/**
 * The four routes of /documents over the table of document records and the
 * uploads directory: list, upload, fetch and delete, each answering with an
 * HTTP status.
 */
module DocumentStore {
  import opened Wrappers
  import opened DownloadNames
  import opened UploadRules

  /** One row of the `documents` table. `createdAt` is the insertion time the database supplies. */
  datatype Record = Record(id: nat, filename: string, filepath: string, size: int, createdAt: int)

  /** The `:id` route parameter: a value the database reads as an integer, or one it refuses. */
  datatype IdParam = Id(n: int) | Unreadable

  /** The database's `integer` column type is 32 bits wide; a parameter outside that range is an error. */
  predicate Readable(id: IdParam): (r: bool)
    ensures r ==> id.Id?
    ensures id.Id? && 1 <= id.n <= MaxId ==> r
  {
    id.Id? && -0x8000_0000 <= id.n <= MaxId
  }

  /** The largest value of the `SERIAL` id sequence. */
  const MaxId: int := 0x7fff_ffff

  /** Every row lies under its own id. */
  ghost predicate KeysAreIds(m: map<nat, Record>) {
    forall k :: k in m ==> m[k].id == k
  }

  /** Each row is at least as new as the one after it. */
  ghost predicate NewestFirst(s: seq<Record>) {
    forall i :: 0 < i < |s| ==> s[i - 1].createdAt >= s[i].createdAt
  }

  /** Newest first from neighbour to neighbour means newest first between any two rows. */
  lemma {:induction false} NewestFirstOrdersAll(s: seq<Record>, i: int, j: int)
    requires NewestFirst(s) && 0 <= i <= j < |s|
    ensures s[i].createdAt >= s[j].createdAt
    decreases j - i
  {
    if i < j {
      NewestFirstOrdersAll(s, i + 1, j);
    }
  }

  /**
   * `SELECT * FROM documents ORDER BY created_at DESC`: every row exactly
   * once, newest first. Rows created at the same time may come in any order.
   */
  ghost predicate IsListing(s: seq<Record>, m: map<nat, Record>) {
    NewestFirst(s) && multiset(s) == multiset(m.Values)
  }

  /** Places `r` in a newest-first sequence, ahead of every row not newer than it. */
  function InsertNewestFirst(s: seq<Record>, r: Record): (t: seq<Record>)
    requires NewestFirst(s)
    ensures NewestFirst(t)
    ensures multiset(t) == multiset(s) + multiset{r}
    ensures |t| == |s| + 1 && (t[0] == r || (s != [] && t[0] == s[0]))
  {
    if s == [] || r.createdAt >= s[0].createdAt then [r] + s
    else
      var rest := InsertNewestFirst(s[1..], r);
      assert s == [s[0]] + s[1..];
      [s[0]] + rest
  }

  lemma ValuesWithout(m: map<nat, Record>, k: nat)
    requires k in m
    ensures m.Values == (m - {k}).Values + {m[k]}
  {
    var m' := m - {k};
    assert m[k] in m.Values;
    forall j | j in m ensures m[j] == m[k] || m[j] in m'.Values {
      if j != k { assert m'[j] == m[j]; }
    }
    forall j | j in m' ensures m'[j] in m.Values {
      assert m[j] == m'[j];
    }
  }

  lemma IdNotAmongOthers(m: map<nat, Record>, k: nat)
    requires KeysAreIds(m) && k in m
    ensures m[k] !in (m - {k}).Values
  {
  }

  lemma {:induction false} ValuesOfIdMap(m: map<nat, Record>)
    requires KeysAreIds(m)
    ensures |m.Values| == |m|
  {
    if |m.Items| != 0 {
      var item :| item in m.Items;
      var k := item.0;
      var m' := m - {k};
      ValuesOfIdMap(m');
      ValuesWithout(m, k);
      IdNotAmongOthers(m, k);
      assert m.Keys == m'.Keys + {k};
    } else {
      assert m == map[];
    }
  }

  /** A listing holds one row per record of the table. */
  lemma ListingHasOneRowPerRecord(s: seq<Record>, m: map<nat, Record>)
    requires KeysAreIds(m) && IsListing(s, m)
    ensures |s| == |m|
  {
    ValuesOfIdMap(m);
    assert |multiset(s)| == |s|;
  }

  /** A row of the table without the row `d` is not the row `d`. */
  lemma RemovedRowGone(x: Record, m: map<nat, Record>, d: nat)
    requires KeysAreIds(m) && x in (m - {d}).Values
    ensures x.id != d
  {
  }

  /** Once the row with id `d` has been removed, no listing shows a record with that id. */
  lemma ListingOmitsRemoved(s: seq<Record>, m: map<nat, Record>, d: nat)
    requires KeysAreIds(m) && IsListing(s, m - {d})
    ensures forall i :: 0 <= i < |s| ==> s[i].id != d
  {
    forall i | 0 <= i < |s| ensures s[i].id != d {
      assert s[i] in multiset(s);
      RemovedRowGone(s[i], m, d);
    }
  }

  /** Removing the row with id `d` leaves every other row in the listing. */
  lemma ListingKeepsOthers(s: seq<Record>, m: map<nat, Record>, d: nat)
    requires IsListing(s, m - {d})
    ensures forall k :: k in m && k != d ==> m[k] in s
  {
    var m' := m - {d};
    forall k | k in m && k != d ensures m[k] in s {
      assert m'[k] in m'.Values;
      assert m[k] in multiset(s);
    }
  }

  /** What GET /documents/:id answers. The served bytes themselves are not modelled. */
  datatype Disposition = Inline(headerFilename: string) | Attachment(filename: string)

  datatype GetReply = Served(disposition: Disposition) | RecordMissing | FileMissing | ServerError
  {
    function Status(): int {
      match this
      case Served(_) => 200
      case RecordMissing => 404
      case FileMissing => 404
      case ServerError => 500
    }
  }

  /** What POST /documents/upload answers; a refusal by the upload middleware takes its own error path. */
  datatype UploadReply = Created(document: Record) | NoFile | Refused(reason: Rejection) | SaveFailed
  {
    function Status(): Option<int> {
      match this
      case Created(_) => Some(201)
      case NoFile => Some(400)
      case Refused(_) => None
      case SaveFailed => Some(500)
    }
  }

  /**
   * The `documents` table and the uploads directory. `files` holds the base
   * names of the files present in the directory; `nextId` is the next value
   * of the id sequence, which never goes back.
   */
  class Documents {
    var rows: map<nat, Record>
    var files: set<string>
    var nextId: nat

    ghost predicate Valid()
      reads this
    {
      1 <= nextId <= MaxId + 1 && KeysAreIds(rows) && forall k :: k in rows ==> 1 <= k < nextId
    }

    constructor ()
      ensures Valid() && rows == map[] && files == {} && nextId == 1
    {
      rows, files, nextId := map[], {}, 1;
    }

    /** GET /documents */
    method List() returns (status: int, listing: seq<Record>)
      requires Valid()
      ensures status == 200
      ensures IsListing(listing, rows)
    {
      var todo := rows.Values;
      listing := [];
      while todo != {}
        invariant NewestFirst(listing)
        invariant multiset(listing) + multiset(todo) == multiset(rows.Values)
        decreases |todo|
      {
        var r :| r in todo;
        listing := InsertNewestFirst(listing, r);
        assert multiset(todo) == multiset(todo - {r}) + multiset{r};
        todo := todo - {r};
      }
      status := 200;
    }

    /**
     * POST /documents/upload. `file` is `None` when the request carries no
     * file part; `now` is the server clock in milliseconds and `createdAt` the
     * database's current timestamp.
     */
    method Upload(file: Option<IncomingFile>, now: nat, createdAt: int) returns (reply: UploadReply)
      requires Valid()
      modifies this
      ensures Valid()
      ensures file.None? ==> reply == NoFile
      ensures file.Some? && Screen(file.value).Some? ==> reply == Refused(Screen(file.value).value)
      ensures !reply.Created? ==> rows == old(rows) && nextId == old(nextId)
      ensures !reply.Created? && !reply.SaveFailed? ==> files == old(files)
      ensures reply.Created? || reply.SaveFailed? <==> file.Some? && Screen(file.value).None?
      ensures reply.SaveFailed? <==> file.Some? && Screen(file.value).None? && old(nextId) > MaxId
      ensures reply.SaveFailed? ==> files == old(files) + {Basename(StoredPath(now, file.value.originalName))}
      ensures reply.Created? ==>
                var f := file.value;
                var doc := Record(old(nextId), f.originalName, StoredPath(now, f.originalName), f.size, createdAt);
                && reply.document == doc
                && old(nextId) !in old(rows)
                && rows == old(rows)[doc.id := doc]
                && files == old(files) + {Basename(doc.filepath)}
                && nextId == old(nextId) + 1
    {
      if file.None? {
        return NoFile;
      }
      var f := file.value;
      var screened := Screen(f);
      if screened.Some? {
        return Refused(screened.value);
      }
      var filepath := StoredPath(now, f.originalName);
      files := files + {Basename(filepath)};
      if nextId > MaxId {
        return SaveFailed;
      }
      var doc := Record(nextId, f.originalName, filepath, f.size, createdAt);
      assert nextId !in rows;
      rows := rows[nextId := doc];
      nextId := nextId + 1;
      assert KeysAreIds(rows);
      reply := Created(doc);
    }

    /**
     * GET /documents/:id with its `download` and `inline` query values. The
     * record's file is looked up by the base name of its stored path; the
     * offered name is chosen and normalised; an inline header that Node
     * refuses to set ends in the route's catch-all error.
     */
    method Get(id: IdParam, download: QueryValue, inline: QueryValue) returns (reply: GetReply)
      requires Valid()
      ensures !Readable(id) ==> reply == ServerError
      ensures Readable(id) && id.n !in rows ==> reply == RecordMissing
      ensures Readable(id) && id.n in rows && Basename(rows[id.n].filepath) !in files ==> reply == FileMissing
      ensures reply.Served? <==>
                Readable(id) && id.n in rows && Basename(rows[id.n].filepath) in files &&
                DownloadName(download, rows[id.n].filename).Some? &&
                (inline == Text("true") ==>
                   ValidHeaderValue(InlineDisposition(DownloadName(download, rows[id.n].filename).value)))
      ensures reply.Served? && inline == Text("true") ==>
                reply.disposition == Inline(StripQuotes(DownloadName(download, rows[id.n].filename).value))
      ensures reply.Served? && inline != Text("true") ==>
                reply.disposition == Attachment(DownloadName(download, rows[id.n].filename).value)
      ensures Readable(id) && id.n in rows && Basename(rows[id.n].filepath) in files && !reply.Served? ==>
                reply == ServerError
    {
      if !Readable(id) {
        return ServerError;
      }
      if id.n !in rows {
        return RecordMissing;
      }
      var doc := rows[id.n];
      if Basename(doc.filepath) !in files {
        return FileMissing;
      }
      var chosen := DownloadName(download, doc.filename);
      if chosen.None? {
        return ServerError;
      }
      var downloadName := chosen.value;
      if inline == Text("true") {
        if !ValidHeaderValue(InlineDisposition(downloadName)) {
          return ServerError;
        }
        reply := Served(Inline(StripQuotes(downloadName)));
      } else {
        reply := Served(Attachment(downloadName));
      }
    }

    /**
     * DELETE /documents/:id. The row goes first; removing the file is best
     * effort and `unlinked` says whether the file system managed it. The
     * answer does not depend on it.
     */
    method Delete(id: IdParam, unlinked: bool) returns (status: int)
      requires Valid()
      modifies this
      ensures Valid()
      ensures !Readable(id) ==> status == 500
      ensures Readable(id) && id.n !in old(rows) ==> status == 404
      ensures status != 200 ==> rows == old(rows) && files == old(files)
      ensures status == 200 <==> Readable(id) && id.n in old(rows)
      ensures status == 200 ==>
                && rows == old(rows) - {id.n}
                && files == (if unlinked then old(files) - {Basename(old(rows)[id.n].filepath)} else old(files))
      ensures nextId == old(nextId)
    {
      if !Readable(id) {
        return 500;
      }
      if id.n !in rows {
        return 404;
      }
      var doc := rows[id.n];
      rows := rows - {id.n};
      if unlinked {
        files := files - {Basename(doc.filepath)};
      }
      status := 200;
    }
  }

  /**
   * An accepted upload can be fetched at once, under its original name
   * normalised. Once the id sequence is exhausted the upload fails with 500
   * and the id it would have had answers 500 too.
   */
  method UploadThenFetch(store: Documents, f: IncomingFile, now: nat, createdAt: int)
    returns (uploaded: UploadReply, fetched: GetReply)
    requires store.Valid() && Screen(f).None?
    modifies store
    ensures uploaded.Created? <==> old(store.nextId) <= MaxId
    ensures uploaded.Created? ==> uploaded.Status() == Some(201)
    ensures uploaded.Created? ==> fetched == Served(Attachment(NormalizeDownloadName(f.originalName)))
    ensures !uploaded.Created? ==> uploaded.Status() == Some(500) && fetched == ServerError
  {
    var id := store.nextId;
    uploaded := store.Upload(Some(f), now, createdAt);
    if uploaded.Created? {
      assert Readable(Id(id)) && id in store.rows && Basename(store.rows[id].filepath) in store.files &&
             DownloadName(Absent, store.rows[id].filename) == Some(NormalizeDownloadName(f.originalName)) by {
        assert store.rows[id] == uploaded.document;
      }
    }
    fetched := store.Get(Id(id), Absent, Absent);
  }

  /**
   * After a delete of an existing id, whether or not the file could be
   * removed, fetching and deleting that id again both answer 404, and the
   * listing no longer shows it.
   */
  method DeleteThenRetry(store: Documents, id: nat, unlinked: bool)
    returns (deleted: int, fetched: GetReply, again: int, listing: seq<Record>)
    requires store.Valid() && id in store.rows
    modifies store
    ensures deleted == 200
    ensures fetched == RecordMissing && fetched.Status() == 404
    ensures again == 404
    ensures forall i :: 0 <= i < |listing| ==> listing[i].id != id
  {
    assert store.rows[id].id == id;
    deleted := store.Delete(Id(id), unlinked);
    fetched := store.Get(Id(id), Absent, Absent);
    again := store.Delete(Id(id), unlinked);
    var status;
    status, listing := store.List();
    ListingOmitsRemoved(listing, old(store.rows), id);
  }
}
