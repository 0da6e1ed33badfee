/**
 * The synchronisation pass as pure functions: which keys are downloaded into
 * the final directory, in which order, when the pass aborts, and when the
 * listed keys are deleted from the bucket. The `S3Client` methods are proved
 * to compute exactly these functions.
 */
module Sync {
  import opened Wrappers
  import opened Paths
  import opened Storage

  /** The final directory: entry name to content. */
  type Dir = map<string, Bytes>

  /**
   * The ways the environment can fail a pass: the listing call of the
   * download phase raises, the download of a key raises, the second listing
   * call (made by the delete phase) raises, the deletion of a key raises.
   */
  datatype Faults = Faults(listing: bool, download: set<string>, relisting: bool, delete: set<string>)

  /**
   * A name that denotes an entry of the final directory. The names "" and
   * ".." denote the final directory itself and its parent, which always exist.
   */
  predicate IsEntryName(name: string) {
    name != [] && name != ".."
  }

  /**
   * `_exists_local`: the key's base name exists under the final directory.
   * A key without a directory part exists exactly when it is an entry; a key
   * naming the final directory itself or its parent always exists.
   */
  function ExistsLocal(local: Dir, key: string): (e: bool)
    ensures IsKeptComponent(key) && '/' !in key && key != ".." ==> (e <==> key in local)
    ensures Basename(key) == [] || Basename(key) == ".." ==> e
    ensures Basename(key) in local ==> e
  {
    var name := Basename(key);
    var found := !IsEntryName(name) || name in local;
    if IsKeptComponent(key) && '/' !in key then PlainNameIsItsOwnBasename(key); found else found
  }

  /**
   * Existence is decided by the base name alone: keys that differ only in
   * their directory part collide on the same local entry.
   */
  lemma ExistsLocalIgnoresDirectory(local: Dir, dir: string, key: string)
    requires dir != [] && dir[|dir| - 1] == '/'
    requires Basename(key) != []
    ensures ExistsLocal(local, dir + key) <==> ExistsLocal(local, key)
  {
    BasenameIgnoresDirectory(dir, key);
  }

  /** Python truthiness of the delete flag: `None` is falsy, a boolean is itself; so only `True` opens the gate. */
  function Truthy(flag: Option<bool>): (t: bool)
    ensures t <==> flag == Some(true)
  {
    match flag
    case None => false
    case Some(value) => value
  }

  /** What a download loop returns and leaves in the final directory. */
  datatype Download = Download(ok: bool, local: Dir)

  /**
   * The download loop over `keys`: a key whose base name exists locally is
   * skipped; any other key is fetched and written under its base name; the
   * first fetch that raises ends the loop with `ok == false`.
   */
  function DownloadAll(keys: seq<string>, b: Bucket, faults: set<string>, local: Dir): (r: Download)
    ensures local.Keys <= r.local.Keys
    ensures forall name :: name in r.local && name !in local ==>
              IsEntryName(name) && exists k :: k in keys && Basename(k) == name
    decreases |keys|
  {
    if keys == [] then Download(true, local)
    else if ExistsLocal(local, keys[0]) then DownloadAll(keys[1..], b, faults, local)
    else match GetObject(b, faults, keys[0])
      case None => Download(false, local)
      case Some(body) => DownloadAll(keys[1..], b, faults, local[Basename(keys[0]) := body])
  }

  /** `download_files`: list the keys under the prefix, then run the download loop; a listing that raises is a failure. */
  function DownloadPhase(b: Bucket, prefix: string, faults: Faults, local: Dir): (r: Download)
    ensures faults.listing ==> r == Download(false, local)
    ensures local.Keys <= r.local.Keys
    ensures r.ok && b.Valid() ==> forall k :: k in b.objects && prefix <= k ==> ExistsLocal(r.local, k)
  {
    if faults.listing then Download(false, local)
    else
      var keys := ListObjects(b, prefix);
      var d := DownloadAll(keys, b, faults.download, local);
      if d.ok then DownloadAllCovers(keys, b, faults.download, local); d else d
  }

  /** What a delete loop reports and leaves in the bucket. */
  datatype Deletion = Deletion(ok: bool, bucket: Bucket)

  /** The delete loop over `keys`; the first deletion that raises ends it. */
  function DeleteAll(keys: seq<string>, b: Bucket, faults: set<string>): (r: Deletion)
    ensures r.ok <==> forall k :: k in keys ==> k !in faults
    ensures b.Valid() ==> r.bucket.Valid()
    decreases |keys|
  {
    if keys == [] then Deletion(true, b)
    else if keys[0] in faults then Deletion(false, b)
    else DeleteAll(keys[1..], DeleteObject(b, keys[0]), faults)
  }

  /** `delete_files`: list the keys under the prefix again, then run the delete loop. */
  function DeletePhase(b: Bucket, prefix: string, faults: Faults): (r: Deletion)
    ensures faults.relisting ==> r == Deletion(false, b)
    ensures b.Valid() ==> r.bucket.Valid()
    ensures !r.ok ==> faults.relisting || exists k :: k in ListObjects(b, prefix) && k in faults.delete
    ensures r.ok && b.Valid() ==>
      && (forall k :: k in r.bucket.objects <==> k in b.objects && !(prefix <= k))
      && (forall k :: k in r.bucket.objects ==> r.bucket.objects[k] == b.objects[k])
  {
    if faults.relisting then Deletion(false, b)
    else
      var keys := ListObjects(b, prefix);
      var d := DeleteAll(keys, b, faults.delete);
      if d.ok then DeleteAllRemovesListed(keys, b, faults.delete); d else d
  }

  /** The state after a pass, and whether an exception escaped it. */
  datatype Outcome = Outcome(bucket: Bucket, local: Dir, raised: bool)

  /**
   * `process_files`: the download phase, then the delete phase only when the
   * download phase succeeded and the delete flag is truthy. Downloads never
   * change the bucket, so the second listing sees the bucket the pass began with.
   */
  function Pass(b: Bucket, local: Dir, prefix: string, delete: Option<bool>, faults: Faults): (r: Outcome)
    ensures !Truthy(delete) ==> r.bucket == b && !r.raised
    ensures r.raised ==>
      && Truthy(delete) && !faults.listing
      && (faults.relisting || exists k :: k in ListObjects(b, prefix) && k in faults.delete)
    ensures b.Valid() ==> r.bucket.Valid()
    ensures local.Keys <= r.local.Keys
  {
    var downloaded := DownloadPhase(b, prefix, faults, local);
    if downloaded.ok && Truthy(delete) then
      var deleted := DeletePhase(b, prefix, faults);
      Outcome(deleted.bucket, downloaded.local, !deleted.ok)
    else
      Outcome(b, downloaded.local, false)
  }

  // ---------------------------------------------------------------------------
  // The download loop

  /** Running the loop over two runs of keys is running it over the first, then (if that succeeded) over the second. */
  lemma {:induction false} DownloadAllAppend(front: seq<string>, back: seq<string>, b: Bucket, faults: set<string>, local: Dir)
    ensures DownloadAll(front + back, b, faults, local) ==
      var first := DownloadAll(front, b, faults, local);
      if first.ok then DownloadAll(back, b, faults, first.local) else first
    decreases |front|
  {
    if front == [] {
      assert front + back == back;
    } else {
      var key := front[0];
      assert (front + back)[0] == key;
      assert (front + back)[1..] == front[1..] + back;
      if ExistsLocal(local, key) {
        DownloadAllAppend(front[1..], back, b, faults, local);
      } else if GetObject(b, faults, key).Some? {
        DownloadAllAppend(front[1..], back, b, faults, local[Basename(key) := b.objects[key]]);
      }
    }
  }

  /** Key `i` is where the loop raised: the keys before it all went through, and nothing after it was touched. */
  ghost predicate AbortedAt(keys: seq<string>, i: int, b: Bucket, faults: set<string>, local: Dir)
  {
    && 0 <= i < |keys|
    && var before := DownloadAll(keys[..i], b, faults, local);
    && before.ok
    && !ExistsLocal(before.local, keys[i])
    && GetObject(b, faults, keys[i]).None?
    && DownloadAll(keys, b, faults, local) == Download(false, before.local)
  }

  /** A failed loop failed at one key; the directory holds what the keys before it wrote and nothing from the keys after it. */
  lemma {:induction false} DownloadAllAborts(keys: seq<string>, b: Bucket, faults: set<string>, local: Dir)
    requires !DownloadAll(keys, b, faults, local).ok
    ensures exists i :: AbortedAt(keys, i, b, faults, local)
    decreases |keys|
  {
    var key := keys[0];
    if ExistsLocal(local, key) || GetObject(b, faults, key).Some? {
      var next := if ExistsLocal(local, key) then local else local[Basename(key) := b.objects[key]];
      assert DownloadAll(keys, b, faults, local) == DownloadAll(keys[1..], b, faults, next);
      DownloadAllAborts(keys[1..], b, faults, next);
      var i :| AbortedAt(keys[1..], i, b, faults, next);
      assert keys[..i + 1] == [key] + keys[1..][..i];
      assert keys[1..][i] == keys[i + 1];
      assert DownloadAll(keys[..i + 1], b, faults, local) == DownloadAll(keys[1..][..i], b, faults, next);
      assert AbortedAt(keys, i + 1, b, faults, local);
    } else {
      assert keys[..0] == [];
      assert AbortedAt(keys, 0, b, faults, local);
    }
  }

  /** Entries present before the loop keep their content: a name that exists locally is never overwritten. */
  lemma {:induction false} DownloadAllKeepsExisting(keys: seq<string>, b: Bucket, faults: set<string>, local: Dir)
    ensures var r := DownloadAll(keys, b, faults, local);
      forall name :: name in local ==> name in r.local && r.local[name] == local[name]
    decreases |keys|
  {
    if keys != [] {
      var key := keys[0];
      if ExistsLocal(local, key) {
        DownloadAllKeepsExisting(keys[1..], b, faults, local);
      } else if GetObject(b, faults, key).Some? {
        var next := local[Basename(key) := b.objects[key]];
        assert DownloadAll(keys, b, faults, local) == DownloadAll(keys[1..], b, faults, next);
        assert forall name :: name in local ==> name in next && next[name] == local[name];
        DownloadAllKeepsExisting(keys[1..], b, faults, next);
      }
    }
  }

  /** After a loop that succeeded, every listed key's base name exists locally. */
  lemma {:induction false} DownloadAllCovers(keys: seq<string>, b: Bucket, faults: set<string>, local: Dir)
    requires DownloadAll(keys, b, faults, local).ok
    ensures forall k :: k in keys ==> ExistsLocal(DownloadAll(keys, b, faults, local).local, k)
    decreases |keys|
  {
    if keys != [] {
      var key := keys[0];
      var next := if ExistsLocal(local, key) then local else local[Basename(key) := b.objects[key]];
      assert ExistsLocal(next, key);
      assert DownloadAll(keys, b, faults, local) == DownloadAll(keys[1..], b, faults, next);
      DownloadAllCovers(keys[1..], b, faults, next);
      DownloadAllKeepsExisting(keys[1..], b, faults, next);
      forall k | k in keys
        ensures ExistsLocal(DownloadAll(keys, b, faults, local).local, k)
      {
        if k != key {
          assert k in keys[1..];
        }
      }
    }
  }

  /** When every key's base name exists locally, the loop succeeds and writes nothing, whatever fails. */
  lemma {:induction false} DownloadAllSkipsPresent(keys: seq<string>, b: Bucket, faults: set<string>, local: Dir)
    requires forall k :: k in keys ==> ExistsLocal(local, k)
    ensures DownloadAll(keys, b, faults, local) == Download(true, local)
    decreases |keys|
  {
    if keys != [] {
      assert keys[0] in keys;
      forall k | k in keys[1..] ensures ExistsLocal(local, k) {
        assert k in keys;
      }
      DownloadAllSkipsPresent(keys[1..], b, faults, local);
    }
  }

  /** Key `i` is the first in `keys` whose base name is `name`. */
  ghost predicate FirstNamed(keys: seq<string>, i: int, name: string)
  {
    0 <= i < |keys| && Basename(keys[i]) == name && forall j :: 0 <= j < i ==> Basename(keys[j]) != name
  }

  /** Only one key can be the first with a given name. */
  lemma FirstNamedUnique(keys: seq<string>, i: int, j: int, name: string)
    requires FirstNamed(keys, i, name) && FirstNamed(keys, j, name)
    ensures i == j
  {
  }

  /**
   * A name the loop added to the directory is an entry name, and its content
   * is that of the FIRST listed key with that base name: the key's directory
   * part is discarded and, on a collision, the earlier key wins.
   */
  lemma {:induction false} DownloadedFromFirstListed(keys: seq<string>, b: Bucket, faults: set<string>, local: Dir, name: string)
    requires name in DownloadAll(keys, b, faults, local).local && name !in local
    ensures IsEntryName(name)
    ensures exists i :: FirstNamed(keys, i, name) && keys[i] in b.objects
                        && DownloadAll(keys, b, faults, local).local[name] == b.objects[keys[i]]
    decreases |keys|
  {
    var key := keys[0];
    var written := Basename(key);
    if ExistsLocal(local, key) {
      DownloadedFromFirstListed(keys[1..], b, faults, local, name);
      var i :| FirstNamed(keys[1..], i, name) && keys[1..][i] in b.objects
               && DownloadAll(keys[1..], b, faults, local).local[name] == b.objects[keys[1..][i]];
      assert FirstNamed(keys, i + 1, name);
    } else if GetObject(b, faults, key).None? {
      assert false;
    } else {
      var next := local[written := b.objects[key]];
      assert DownloadAll(keys, b, faults, local) == DownloadAll(keys[1..], b, faults, next);
      if name == written {
        assert name in next && next[name] == b.objects[key];
        DownloadAllKeepsExisting(keys[1..], b, faults, next);
        assert DownloadAll(keys, b, faults, local).local[name] == b.objects[key];
        assert FirstNamed(keys, 0, name);
      } else {
        DownloadedFromFirstListed(keys[1..], b, faults, next, name);
        var i :| FirstNamed(keys[1..], i, name) && keys[1..][i] in b.objects
                 && DownloadAll(keys[1..], b, faults, next).local[name] == b.objects[keys[1..][i]];
        assert FirstNamed(keys, i + 1, name);
      }
    }
  }

  /**
   * After a loop that succeeded, a listed key that is the first with its base
   * name, where that name was not yet present, has its content in the directory.
   */
  lemma FirstListedKeyWins(keys: seq<string>, b: Bucket, faults: set<string>, local: Dir, i: int)
    requires DownloadAll(keys, b, faults, local).ok
    requires 0 <= i < |keys| && FirstNamed(keys, i, Basename(keys[i]))
    requires !ExistsLocal(local, keys[i])
    ensures var r := DownloadAll(keys, b, faults, local);
      Basename(keys[i]) in r.local && keys[i] in b.objects && r.local[Basename(keys[i])] == b.objects[keys[i]]
  {
    var name := Basename(keys[i]);
    DownloadAllCovers(keys, b, faults, local);
    assert keys[i] in keys;
    DownloadedFromFirstListed(keys, b, faults, local, name);
    var j :| FirstNamed(keys, j, name) && keys[j] in b.objects
             && DownloadAll(keys, b, faults, local).local[name] == b.objects[keys[j]];
    FirstNamedUnique(keys, i, j, name);
  }

  /** A succeeded loop, run again over the same keys, writes nothing. */
  lemma DownloadAllIdempotent(keys: seq<string>, b: Bucket, faults: set<string>, again: set<string>, local: Dir)
    requires DownloadAll(keys, b, faults, local).ok
    ensures var r := DownloadAll(keys, b, faults, local);
      DownloadAll(keys, b, again, r.local) == Download(true, r.local)
  {
    DownloadAllCovers(keys, b, faults, local);
    DownloadAllSkipsPresent(keys, b, again, DownloadAll(keys, b, faults, local).local);
  }

  // ---------------------------------------------------------------------------
  // The delete loop

  /** A delete loop that succeeded removed exactly the listed keys and kept every other object as it was. */
  lemma {:induction false} DeleteAllRemovesListed(keys: seq<string>, b: Bucket, faults: set<string>)
    requires DeleteAll(keys, b, faults).ok
    ensures var r := DeleteAll(keys, b, faults).bucket;
      && (forall k :: k in r.objects <==> k in b.objects && k !in keys)
      && (forall k :: k in r.objects ==> r.objects[k] == b.objects[k])
      && (forall k :: k in r.order <==> k in b.order && k !in keys)
    decreases |keys|
  {
    if keys != [] {
      DeleteAllRemovesListed(keys[1..], DeleteObject(b, keys[0]), faults);
      assert forall k :: k in keys <==> k == keys[0] || k in keys[1..];
    }
  }

  /** Key `i` is where the delete loop raised: the keys before it were deleted, and no key from `i` on. */
  ghost predicate DeleteStoppedAt(keys: seq<string>, i: int, b: Bucket, faults: set<string>)
  {
    && 0 <= i < |keys|
    && keys[i] in faults
    && (forall j :: 0 <= j < i ==> keys[j] !in faults)
    && DeleteAll(keys, b, faults).bucket == DeleteAll(keys[..i], b, faults).bucket
  }

  /** A delete loop that raised did so at the first faulty key, having deleted exactly the keys before it. */
  lemma {:induction false} DeleteAllStopsAtFault(keys: seq<string>, b: Bucket, faults: set<string>)
    requires !DeleteAll(keys, b, faults).ok
    ensures exists i :: DeleteStoppedAt(keys, i, b, faults)
    decreases |keys|
  {
    if keys[0] in faults {
      assert keys[..0] == [];
      assert DeleteStoppedAt(keys, 0, b, faults);
    } else {
      var next := DeleteObject(b, keys[0]);
      assert DeleteAll(keys, b, faults) == DeleteAll(keys[1..], next, faults);
      DeleteAllStopsAtFault(keys[1..], next, faults);
      var i :| DeleteStoppedAt(keys[1..], i, next, faults);
      assert keys[..i + 1][0] == keys[0];
      assert keys[..i + 1][1..] == keys[1..][..i];
      assert DeleteAll(keys[..i + 1], b, faults) == DeleteAll(keys[1..][..i], next, faults);
      assert DeleteStoppedAt(keys, i + 1, b, faults);
    }
  }

  // ---------------------------------------------------------------------------
  // The whole pass

  /** The bucket changes only when the download phase succeeded and the flag is truthy; otherwise nothing escapes the pass. */
  lemma PassDeletesOnlyAfterFullDownload(b: Bucket, local: Dir, prefix: string, delete: Option<bool>, faults: Faults)
    ensures var r := Pass(b, local, prefix, delete, faults);
      r.bucket != b ==> DownloadPhase(b, prefix, faults, local).ok && Truthy(delete)
    ensures var r := Pass(b, local, prefix, delete, faults);
      !DownloadPhase(b, prefix, faults, local).ok || !Truthy(delete) ==> r.bucket == b && !r.raised
  {
  }

  /**
   * When the gate opens and the second listing raises, the exception escapes
   * the pass and the bucket is left as it was.
   */
  lemma PassRelistingRaisedKeepsBucket(b: Bucket, local: Dir, prefix: string, delete: Option<bool>, faults: Faults)
    requires DownloadPhase(b, prefix, faults, local).ok && Truthy(delete)
    requires faults.relisting
    ensures Pass(b, local, prefix, delete, faults) == Outcome(b, DownloadPhase(b, prefix, faults, local).local, true)
  {
  }

  /**
   * When the gate opens and no deletion raises, every object under the prefix
   * is deleted (those skipped because their name existed locally included)
   * and every other object is kept.
   */
  lemma PassEmptiesPrefix(b: Bucket, local: Dir, prefix: string, delete: Option<bool>, faults: Faults)
    requires b.Valid()
    requires DownloadPhase(b, prefix, faults, local).ok && Truthy(delete)
    requires !Pass(b, local, prefix, delete, faults).raised
    ensures var r := Pass(b, local, prefix, delete, faults).bucket;
      && (forall k :: k in r.objects <==> k in b.objects && !(prefix <= k))
      && (forall k :: k in r.objects ==> r.objects[k] == b.objects[k])
  {
    DeleteAllRemovesListed(ListObjects(b, prefix), b, faults.delete);
  }

  /** No pass ever changes an entry that was in the final directory when it began. */
  lemma PassNeverOverwrites(b: Bucket, local: Dir, prefix: string, delete: Option<bool>, faults: Faults)
    ensures var r := Pass(b, local, prefix, delete, faults);
      forall name :: name in local ==> name in r.local && r.local[name] == local[name]
  {
    if !faults.listing {
      DownloadAllKeepsExisting(ListObjects(b, prefix), b, faults.download, local);
    }
  }

  /**
   * A pass whose downloads succeeded and from which nothing escaped is a fixed
   * point: a second pass, whatever fails in it, downloads nothing, deletes
   * nothing and leaves the final directory as it was, with the flag on or off.
   * The only exception it can raise is its own second listing's, and only
   * with the flag on.
   */
  lemma PassIdempotent(b: Bucket, local: Dir, prefix: string, delete: Option<bool>, faults: Faults, again: Faults)
    requires b.Valid()
    requires DownloadPhase(b, prefix, faults, local).ok
    requires !Pass(b, local, prefix, delete, faults).raised
    ensures var r := Pass(b, local, prefix, delete, faults);
      var s := Pass(r.bucket, r.local, prefix, delete, again);
      && s.bucket == r.bucket && s.local == r.local
      && (s.raised <==> Truthy(delete) && !again.listing && again.relisting)
  {
    var keys := ListObjects(b, prefix);
    var r := Pass(b, local, prefix, delete, faults);
    if Truthy(delete) {
      DeleteAllRemovesListed(keys, b, faults.delete);
      assert ListObjects(r.bucket, prefix) == [];
    } else {
      DownloadAllIdempotent(keys, b, faults.download, again.download, local);
    }
  }
}
