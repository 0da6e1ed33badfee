/** Concrete passes over a small bucket, derived from the general lemmas. */
module Scenarios {
  import opened Wrappers
  import opened Paths
  import opened Storage
  import opened Sync

  const NoFaults := Faults(false, {}, false, {})

  /** Two images under "images/", and one object outside the prefix. */
  function Images(a: Bytes, b: Bytes, c: Bytes): Bucket {
    Bucket(["images/a.png", "images/b.png", "logs/x.txt"],
           map["images/a.png" := a, "images/b.png" := b, "logs/x.txt" := c])
  }

  /** Listing "images/" yields the two images, in bucket order. */
  lemma ImagesListing(a: Bytes, b: Bytes, c: Bytes)
    ensures ListObjects(Images(a, b, c), "images/") == ["images/a.png", "images/b.png"]
  {
    var order := Images(a, b, c).order;
    var p: string := "images/";
    assert p <= "images/a.png" && p <= "images/b.png";
    assert !(p <= "logs/x.txt") by {
      assert "logs/x.txt"[0] != p[0];
    }
    assert order[1..] == ["images/b.png", "logs/x.txt"];
    assert order[1..][1..] == ["logs/x.txt"];
    assert order[1..][1..][1..] == [];
  }

  lemma ImageNames()
    ensures Basename("images/a.png") == "a.png"
    ensures Basename("images/b.png") == "b.png"
  {
    PlainNameIsItsOwnBasename("a.png");
    PlainNameIsItsOwnBasename("b.png");
    BasenameIgnoresDirectory("images/", "a.png");
    BasenameIgnoresDirectory("images/", "b.png");
    assert "images/" + "a.png" == "images/a.png";
    assert "images/" + "b.png" == "images/b.png";
  }

  /**
   * With delete off, a pass over a final directory that already holds a
   * different "a.png" downloads only "b.png", keeps the local "a.png", and
   * leaves the bucket as it was.
   */
  lemma ExistingFileIsKept(a: Bytes, b: Bytes, c: Bytes, old_a: Bytes)
    ensures var r := Pass(Images(a, b, c), map["a.png" := old_a], "images/", Some(false), NoFaults);
      r == Outcome(Images(a, b, c), map["a.png" := old_a, "b.png" := b], false)
  {
    ImageNames();
    ImagesListing(a, b, c);
    var bucket := Images(a, b, c);
    var keys := ["images/a.png", "images/b.png"];
    var local := map["a.png" := old_a];
    assert ExistsLocal(local, keys[0]);
    assert keys[1..] == ["images/b.png"] && keys[1..][1..] == [];
    assert !ExistsLocal(local, keys[1..][0]);
    assert DownloadAll(keys, bucket, {}, local) == Download(true, local["b.png" := b]);
  }

  /** Deleting the two images, one after the other, leaves only the other object. */
  lemma ImagesDeleted(a: Bytes, b: Bytes, c: Bytes)
    ensures DeleteAll(["images/a.png", "images/b.png"], Images(a, b, c), {})
         == Deletion(true, DeleteObject(DeleteObject(Images(a, b, c), "images/a.png"), "images/b.png"))
    ensures DeleteObject(DeleteObject(Images(a, b, c), "images/a.png"), "images/b.png").objects
         == map["logs/x.txt" := c]
  {
    var keys := ["images/a.png", "images/b.png"];
    assert keys[1..] == ["images/b.png"] && keys[1..][1..] == [];
    var objects := Images(a, b, c).objects;
    assert objects - {"images/a.png"} - {"images/b.png"} == map["logs/x.txt" := c];
  }

  /** Into an empty directory, both images are downloaded under their base names. */
  lemma ImagesDownloaded(a: Bytes, b: Bytes, c: Bytes)
    ensures DownloadAll(["images/a.png", "images/b.png"], Images(a, b, c), {}, map[])
         == Download(true, map["a.png" := a, "b.png" := b])
  {
    ImageNames();
    var bucket := Images(a, b, c);
    var keys := ["images/a.png", "images/b.png"];
    assert keys[1..] == ["images/b.png"] && keys[1..][1..] == [];
    var empty: Dir := map[];
    var first := empty["a.png" := a];
    assert !ExistsLocal(empty, keys[0]);
    assert GetObject(bucket, {}, keys[0]) == Some(a);
    assert DownloadAll(keys, bucket, {}, empty) == DownloadAll(keys[1..], bucket, {}, first);
    assert !ExistsLocal(first, keys[1..][0]);
    assert GetObject(bucket, {}, keys[1..][0]) == Some(b);
    assert DownloadAll(keys[1..], bucket, {}, first) == Download(true, first["b.png" := b]);
  }

  /** With delete on, and no failure, the two images are downloaded and deleted; the other object stays. */
  lemma DeleteOnEmptiesPrefix(a: Bytes, b: Bytes, c: Bytes)
    ensures var r := Pass(Images(a, b, c), map[], "images/", Some(true), NoFaults);
      && r.local == map["a.png" := a, "b.png" := b]
      && r.bucket.objects == map["logs/x.txt" := c]
      && !r.raised
  {
    ImagesListing(a, b, c);
    ImagesDeleted(a, b, c);
    ImagesDownloaded(a, b, c);
    var bucket := Images(a, b, c);
    var local: Dir := map[];
    var downloaded := map["a.png" := a, "b.png" := b];
    assert DownloadPhase(bucket, "images/", NoFaults, local) == Download(true, downloaded);
    var emptied := DeleteObject(DeleteObject(bucket, "images/a.png"), "images/b.png");
    assert DeletePhase(bucket, "images/", NoFaults) == Deletion(true, emptied);
    assert Pass(bucket, local, "images/", Some(true), NoFaults) == Outcome(emptied, downloaded, false);
  }
}
