/**
 * Client scenarios of the handlers, starting from an empty store, proved
 * from the contracts of FileService alone.
 */
module Scenarios {
  import opened Wrappers
  import opened Identifiers
  import opened Records
  import opened FileService

  /**
   * Upload "photo.png", look it up, delete it, look it up again and
   * delete it again: the id keeps the extension, the lookup returns the
   * original name, and the second delete finds no file.
   */
  method PhotoLifecycle(token: string, domain: string, content: seq<byte>)
    returns (link: string, found: Option<Record>, first: DeleteResponse, gone: Option<Record>, second: DeleteResponse)
    ensures link == FileUrl(domain) + token + ".png"
    ensures found == Some(Record(token + ".png", "photo.png"))
    ensures first == DeleteResponse(200, true, None)
    ensures gone == None
    ensures second == DeleteResponse(404, false, Some("File not found"))
  {
    var store := new FileStore(map[], map[]);
    assert LastSegment("photo.png") == "png" by {
      assert "photo" + "." + "png" == "photo.png";
      LastSegmentAfterDot("photo", "png");
    }
    var id := token + ".png";
    assert Candidate(token, "photo.png") == id;
    var up := store.UploadFile(FilePart(Some("photo.png"), content), [token], domain, true);
    link := up.link;
    found := GetRecord(store.table, id);
    first := store.DeleteFile(id);
    gone := GetRecord(store.table, id);
    second := store.DeleteFile(id);
  }

  /**
   * Two uploads of the same filename add two rows with different ids,
   * and the earlier rows stay as they were.
   */
  method SameNameTwice(table0: map<string, string>, filename: string, tokens1: seq<string>, tokens2: seq<string>,
                       domain: string, content1: seq<byte>, content2: seq<byte>)
    returns (r1: UploadResponse, r2: UploadResponse, after: map<string, string>)
    requires Distinct(tokens1) && |tokens1| > |table0|
    requires Distinct(tokens2) && |tokens2| > |table0| + 1
    ensures r1.Uploaded? && r2.Uploaded? && r1.link != r2.link
    ensures |after| == |table0| + 2
    ensures forall id :: id in table0 ==> id in after && after[id] == table0[id]
    ensures forall id :: id in after && id !in table0 ==> after[id] == filename
  {
    var store := new FileStore(table0, map[]);
    AllocationSucceeds(table0, filename, tokens1);
    r1 := store.UploadFile(FilePart(Some(filename), content1), tokens1, domain, true);
    var mid := store.table;
    AllocationSucceeds(mid, filename, tokens2);
    r2 := store.UploadFile(FilePart(Some(filename), content2), tokens2, domain, true);
    var id1 := FirstFree(table0, filename, tokens1).id;
    var id2 := FirstFree(mid, filename, tokens2).id;
    assert id1 in mid && id2 !in mid;
    IdOfUrlInverse(domain, id1);
    IdOfUrlInverse(domain, id2);
    after := store.table;
  }

  /**
   * Upload A, upload B, delete A: the listing holds exactly B's entry.
   * B's upload is offered a second token, so it succeeds even when its
   * first token repeats A's (the source would simply draw again).
   */
  method ListAfterDelete(tokenA: string, tokenB: string, domain: string, content: seq<byte>)
    returns (rA: UploadResponse, rB: UploadResponse, removedA: DeleteResponse, listing: seq<Listed>)
    ensures rA == Uploaded(FileUrl(domain) + Candidate(tokenA, "a.txt"))
    ensures tokenA != tokenB ==> rB == Uploaded(FileUrl(domain) + Candidate(tokenB, "b.txt"))
    ensures rB.Uploaded?
    ensures removedA == DeleteResponse(200, true, None)
    ensures listing == [Listed(rB.link, "b.txt")]
  {
    assert LastSegment("a.txt") == "txt" && LastSegment("b.txt") == "txt" by {
      assert "a" + "." + "txt" == "a.txt" && "b" + "." + "txt" == "b.txt";
      LastSegmentAfterDot("a", "txt");
      LastSegmentAfterDot("b", "txt");
    }
    var store := new FileStore(map[], map[]);
    rA := store.UploadFile(FilePart(Some("a.txt"), content), [tokenA], domain, true);
    var idA := Candidate(tokenA, "a.txt");
    var tableA := store.table;
    assert tableA == map[idA := "a.txt"];
    var tokensB := [tokenB, tokenB + "-"];
    assert tokensB[0] != tokensB[1] by {
      assert |tokensB[1]| == |tokenB| + 1;
    }
    AllocationSucceeds(tableA, "b.txt", tokensB);
    var idB := FirstFree(tableA, "b.txt", tokensB).id;
    if tokenA != tokenB {
      assert Candidate(tokenB, "b.txt") != idA by {
        if Candidate(tokenB, "b.txt") == idA {
          assert Candidate(tokenB, "a.txt") == Candidate(tokenA, "a.txt");
          CandidateInjective(tokenB, tokenA, "a.txt");
        }
      }
    }
    rB := store.UploadFile(FilePart(Some("b.txt"), content), tokensB, domain, true);
    assert idB != idA;
    removedA := store.DeleteFile(idA);
    assert store.table == map[idB := "b.txt"];
    listing := AllRecords(store.table, domain, [idB]);
  }
}
