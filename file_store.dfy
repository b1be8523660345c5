/**
 * The two stores behind the HTTP handlers of main.py and the operations
 * that change them: the `files` table (id to original filename) and the
 * `static/` directory (file name to bytes). Each operation runs its steps
 * in the source's order, one store after the other, with no rollback.
 */
module FileService {
  import opened Wrappers
  import opened Identifiers
  import opened Records

  newtype byte = x: int | 0 <= x < 256

  /** The multipart request as the upload handler sees it. */
  datatype UploadRequest =
    | NoFilePart                                            // `file` keeps its default, None
    | FilePart(filename: Option<string>, content: seq<byte>)

  /** Why an upload did not produce a link. */
  datatype UploadError =
    | FileFieldMissing   // `file.filename` on None raises, uncaught: a server error
    | BlobWriteFailed    // `open`/`write` under static/ raised, after the row was inserted
    | TokensExhausted    // the supplied tokens all collided (the source would keep drawing)

  /** The upload handler's answers. */
  datatype UploadResponse =
    | Uploaded(link: string)                   // 200 {"link": ...}
    | Rejected(status: nat, detail: string)    // HTTPException
    | Failed(error: UploadError)

  /** The delete handler's JSON answer. */
  datatype DeleteResponse = DeleteResponse(status: nat, removed: bool, errorMessage: Option<string>)

  /** Result of `delete_record`: it returns, or `remove` raises FileNotFoundError. */
  datatype RemoveOutcome = Removed | FileNotFound

  class FileStore {
    /** The `files` table: primary key `id` to column `filename`. */
    var table: map<string, string>
    /** The `static/` directory: file name to its bytes. */
    var blobs: map<string, seq<byte>>

    /** Every row has its file and every file its row. */
    ghost predicate Consistent()
      reads this
    {
      table.Keys == blobs.Keys
    }

    constructor (table0: map<string, string>, blobs0: map<string, seq<byte>>)
      ensures table == table0 && blobs == blobs0
    {
      table := table0;
      blobs := blobs0;
    }

    /**
     * `add_record`: pick a fresh id by the collision loop and insert the
     * row (id, filename). Only the table changes; no existing row is
     * overwritten.
     */
    method AddRecord(filename: string, tokens: seq<string>) returns (r: Allocation)
      modifies this`table
      ensures r == FirstFree(old(table), filename, tokens)
      ensures r.Allocated? ==> r.id !in old(table) && table == old(table)[r.id := filename]
      ensures r.Allocated? ==> |table| == |old(table)| + 1
      ensures r.Exhausted? ==> table == old(table)
    {
      r := Allocate(table, filename, tokens);
      if r.Allocated? {
        table := table[r.id := filename];
      }
    }

    /**
     * `delete_record`: delete the row (a no-op when absent), then remove
     * the file. A missing file is reported after the row is already gone.
     */
    method DeleteRecord(id: string) returns (r: RemoveOutcome)
      modifies this
      ensures table == old(table) - {id}
      ensures blobs == old(blobs) - {id}
      ensures r == if id in old(blobs) then Removed else FileNotFound
    {
      table := table - {id};
      if id !in blobs {
        return FileNotFound;
      }
      blobs := blobs - {id};
      r := Removed;
    }

    /**
     * `upload_file`: reject a part without filename before touching
     * anything; otherwise insert the row first and then write the bytes
     * under the new id. `writeSucceeds` is the file system's answer to
     * the write.
     */
    method UploadFile(request: UploadRequest, tokens: seq<string>, domain: string, writeSucceeds: bool)
      returns (resp: UploadResponse)
      modifies this
      ensures request.NoFilePart? ==>
        resp == Failed(FileFieldMissing) && table == old(table) && blobs == old(blobs)
      ensures request.FilePart? && request.filename.None? ==>
        resp == Rejected(400, "No file provided") && table == old(table) && blobs == old(blobs)
      ensures request.FilePart? && request.filename.Some? ==>
        var a := FirstFree(old(table), request.filename.value, tokens);
        if a.Exhausted? then
          resp == Failed(TokensExhausted) && table == old(table) && blobs == old(blobs)
        else
          && a.id !in old(table)
          && table == old(table)[a.id := request.filename.value]
          && (writeSucceeds ==>
                resp == Uploaded(FileUrl(domain) + a.id) && blobs == old(blobs)[a.id := request.content])
          && (!writeSucceeds ==> resp == Failed(BlobWriteFailed) && blobs == old(blobs))
      ensures old(Consistent()) && resp != Failed(BlobWriteFailed) ==> Consistent()
      ensures old(Consistent()) && resp == Failed(BlobWriteFailed) ==> !Consistent()
    {
      if request.NoFilePart? {
        return Failed(FileFieldMissing);
      }
      if request.filename.None? {
        return Rejected(400, "No file provided");
      }
      var a := AddRecord(request.filename.value, tokens);
      if a.Exhausted? {
        return Failed(TokensExhausted);
      }
      if !writeSucceeds {
        return Failed(BlobWriteFailed);
      }
      blobs := blobs[a.id := request.content];
      resp := Uploaded(FileUrl(domain) + a.id);
    }

    /** `delete_file`: run `delete_record` and turn a missing file into a 404. */
    method DeleteFile(id: string) returns (resp: DeleteResponse)
      modifies this
      ensures table == old(table) - {id}
      ensures blobs == old(blobs) - {id}
      ensures resp == if id in old(blobs) then DeleteResponse(200, true, None)
                      else DeleteResponse(404, false, Some("File not found"))
      ensures old(Consistent()) ==> Consistent()
    {
      var r := DeleteRecord(id);
      match r
      case Removed =>
        resp := DeleteResponse(200, true, None);
      case FileNotFound =>
        resp := DeleteResponse(404, false, Some("File not found"));
    }
  }
}
