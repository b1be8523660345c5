# File store bookkeeping, modelled in Dafny

The modelled service stores uploaded files over HTTP. For each upload it
allocates an identifier. It records the pair (identifier, original
filename) in the SQLite table `files`, and writes the bytes to
`static/<identifier>`. Deleting by identifier removes the row and then the
file. This project models that bookkeeping over two abstract stores, held
by the class `FileService.FileStore`:

- `table: map<string, string>` is the `files` table, from `id` to `filename`;
- `blobs: map<string, seq<byte>>` is the `static/` directory, from file name to bytes.

Modules:

- `Identifiers` covers the identifier allocator of `add_record`.
  - `LastSegment` is `filename.split(".")[-1]`.
  - `Candidate` is token + "." + segment.
  - `IsOutcome` and `FirstFree` state what the collision loop must return.
  - `Allocate` is the loop itself.
  - Lemmas cover extension preservation, injectivity, uniqueness of the outcome, and guaranteed success with enough distinct tokens.
- `Records` holds the read-only queries `get_record` and `get_all_records`, plus the lemmas that connect lookup, listing and updates.
- `FileService` holds the class with `add_record`, `delete_record`, `upload_file` and `delete_file`. Each one changes the two maps in the source's order and makes no compensation.
- `Scenarios` holds client scenarios: the photo.png life cycle, repeated uploads of one name, and listing after a delete. They are proved from the contracts alone.

Inputs the source takes from its environment are parameters here:

- the `uuid4().hex` tokens are a sequence `tokens`, and draw i uses `tokens[i]`;
- the `DOMAIN` setting is a `domain` string, and `FILEURL` is `domain + "/static/file/"`. An unset variable renders as the text `None` in the source, so a caller passes `"None"` for that case;
- the order in which SQLite returns rows is a `rows` sequence, constrained by `IsRowOrder`;
- whether writing the uploaded bytes succeeds is `writeSucceeds`.

Where the code departs from what its handlers evidently intend (the 400 "No file provided" at main.py:107-108), the model follows the code:

- With no file part at all, `file` keeps its default `None`. Reading `file.filename` then raises an uncaught error, which is a server error and not a 400. Only a part whose filename is `None` gets the 400 "No file provided" (`UploadRequest.NoFilePart` and `Failed(FileFieldMissing)` versus `Rejected(400, ...)`).
- Deleting an id that has no row is not an error. The row deletion is a silent no-op. The 404 comes only from the missing file (`DeleteRecord`, `DeleteFile`).
- Identifiers are random, not content-derived. Make the same upload twice and you get two rows.

## Model

| member | source | states |
|---|---|---|
| Identifiers.LastSegment | main.py:48 | `filename.split(".")[-1]`; no contract of its own, its behaviour is stated by LastSegmentShape |
| Identifiers.LastSegmentShape | main.py:48 | the segment has no '.', is a suffix of the filename, is preceded by a '.' unless it is the whole name, and is the whole name when the name has no '.' |
| Identifiers.LastSegmentAfterDot | main.py:48 | splitting `p + "." + e` with dot-free `e` yields exactly `e` |
| Identifiers.Candidate | main.py:46-48 | the id built from one token: `token + "." + LastSegment(filename)`, as at main.py:46-48 and 54-55; no contract of its own, its behaviour is stated by CandidateKeepsExtension and CandidateInjective |
| Identifiers.CandidateKeepsExtension | main.py:46-48 | a candidate id ends in the filename's last segment (splitting it again gives the same extension) and begins with its token |
| Identifiers.CandidateInjective | main.py:54-55 | for one filename, equal candidates come from equal tokens, so fresh tokens give fresh candidates |
| Identifiers.FirstFree | main.py:52-56 | the loop outcome: the candidate of the first token whose candidate is not a key, after all earlier ones collided, with the number of draws; or Exhausted when every token collided |
| Identifiers.OutcomeUnique | main.py:52-56 | at most one outcome meets that promise, so the loop's result is determined by table, filename and tokens |
| Identifiers.Allocate | main.py:46-56 | the while loop that re-draws while the SELECT finds a row returns an outcome meeting the promise, equal to FirstFree: the id is not in the table, has the id shape, and the K earlier candidates all collided |
| Identifiers.AllocationSucceeds | main.py:53-56 | with pairwise distinct tokens, more of them than table rows, allocation never exhausts |
| Identifiers.CandidateSetSize | main.py:54-55 | distinct tokens give as many distinct candidates as there are tokens |
| Records.GetRecord | main.py:65-72 | returns a record exactly when the id is a key, and the record is (id, stored filename); reads only |
| Records.SomeRowOrder | main.py:79-80 | every table has an order in which fetchall lists each row exactly once |
| Records.RowOrderLength | main.py:79-80 | a fetch order has exactly one entry per row |
| Records.FileUrl | main.py:17 | `FILEURL`, the domain followed by "/static/file/"; no contract of its own, its use as a removable prefix is stated by IdOfUrl and IdOfUrlInverse |
| Records.IdOfUrl | main.py:17 | decodes a link built as FILEURL + id (main.py:115) back to that id: an id exactly when the URL begins with FILEURL, and the URL is FILEURL followed by that id |
| Records.IdOfUrlInverse | main.py:82 | stripping FILEURL from FILEURL + id gives back id |
| Records.AllRecords | main.py:75-84 | one entry per row, so the list is as long as the table; every row (FILEURL + id, filename) appears; every entry is FILEURL + some id whose record has the entry's filename |
| Records.AllRecordsAt | main.py:80-82 | the listing keeps the fetch order: entry i's URL decodes to the i-th fetched id, and looking that id up gives entry i's filename |
| Records.ListingMatchesLookup | main.py:65-84 | the id in each listed URL looks up to a record with the listed filename |
| Records.ListingUrlsDistinct | main.py:82 | no two listed entries share a URL |
| Records.GetAfterInsert | main.py:58-72 | after inserting (id, filename), lookup of id gives that record and every other lookup is unchanged |
| Records.GetAfterDelete | main.py:87-93 | after deleting id, its lookup gives nothing and every other lookup is unchanged |
| FileService.FileStore.AddRecord | main.py:43-62 | returns the loop outcome on the old table; when allocated, the id was not a key and the table becomes the old table plus exactly id to filename (one row more); otherwise nothing changes |
| FileService.FileStore.DeleteRecord | main.py:87-95 | the row is removed (no-op when absent) and other rows unchanged; the file is removed; the outcome is FileNotFound exactly when there was no file, and the row is gone either way |
| FileService.FileStore.UploadFile | main.py:103-115 | no file part or no filename: the matching error, nothing changed; else the row is inserted under a fresh id and the bytes are then written under it with link FILEURL + id; a failed write leaves the row without a file; uploads that succeed keep rows and files in step |
| FileService.FileStore.DeleteFile | main.py:134-143 | 200 with removed true when the file existed, otherwise 404 with removed false and "File not found"; both stores lose the id either way; rows and files stay in step |
| Scenarios.PhotoLifecycle | main.py:103-143 | uploading photo.png links to token + ".png"; lookup gives photo.png; delete answers 200; lookup then gives nothing; a second delete answers 404 |
| Scenarios.SameNameTwice | main.py:103-115 | two uploads of one filename both succeed with different links, add two rows that both hold that filename, and keep every earlier row |
| Scenarios.ListAfterDelete | main.py:75-149 | upload A, upload B and delete A all succeed (B's link is FILEURL + token + ".txt" whenever B's first token differs from A's), and the listing then holds exactly B's entry |

## Left out

- `download_file` and `get_file` (main.py:118-131) only serve a file from `static/`. Content-type inference happens inside the web framework's file response, whose code is not part of this model.
- `init_db` and `startup` (main.py:23-39) create the database and the directory. That is bootstrap I/O. The constructor takes the two initial maps instead.
- SQLite connections, cursors and commits. Each query and statement is one step on the `table` map.
- Routing, `HTTPException`, `JSONResponse`, `uvicorn`, `dotenv` and `print` are transport, configuration and logging. Only the status and body values are kept, as datatypes.
- The randomness of `uuid4`. Tokens are arbitrary strings, and their 32-hex-digit format is not constrained.
- Identifiers.Allocate: the source loop has no bound. The model draws only the supplied tokens and returns `Exhausted` when they run out, which the source never does. `AllocationSucceeds` bounds when this can happen. `UploadFile` answers `Failed(TokensExhausted)` in that case and changes nothing.
- Concurrent requests racing between the existence check and the insert. That is concurrency, and the sequential model cannot express it. For the same reason, the primary-key error an insert would raise in such a race is not modelled.
- Blob paths. A file is keyed by its id. The composition `getcwd() + "/static/" + id` is not modelled, and neither are ids that the OS would read as paths (an extension containing '/', or "." and ".."). The only file-system failures modelled are a missing file on delete (FileNotFoundError) and a write failure on upload (`writeSucceeds`). Other OS errors are not.
- A failed write may leave a partly written file behind in the source. The model leaves `blobs` unchanged in that case.
- Records.IdOfUrl: links are built without percent-encoding (main.py:115), so an id whose extension contains '?', '#', '%' or '/' does not reach the route at main.py:129-131 as itself. The model decodes the link string only and does not capture URL parsing.
- The comment at main.py:45 mentions an md5 hash. The code does not compute one, and the model does not either.
