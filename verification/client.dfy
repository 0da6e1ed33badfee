/**
 * The storage client: its settings, the remote bucket it talks to and the
 * final directory it writes, and the methods of one synchronisation pass.
 * Each method is proved to compute the corresponding function of module Sync.
 */
module Client {
  import opened Wrappers
  import opened Paths
  import opened Storage
  import opened Configuration
  import opened Sync

  /** The constructor arguments `from_config` reads, in the order it reads them. */
  datatype ClientArgs = ClientArgs(
    accessKey: string,
    secretKey: string,
    bucketName: string,
    path: string,
    finalDir: string,
    delete: Option<bool>,
    kwargs: map<string, string>)

  /**
   * The arguments of `from_config`, evaluated left to right: the first
   * accessor that raises decides the error.
   */
  function ReadClientArgs(c: Config): (r: Result<ClientArgs, ConfigError>)
    ensures c.section !in c.sections ==> r == Failure(NoSection(c.section))
    ensures c.section in c.sections ==>
      var items := c.sections[c.section];
      && (r.Success? <==>
            && "access_key" in items && "secret_key" in items
            && "bucket_name" in items && "final_dir" in items
            && ("delete" in items ==> ParseBoolean(items["delete"]).Some?))
      && ("access_key" !in items ==> r == Failure(NoOption("access_key")))
      && ("access_key" in items && "secret_key" !in items ==> r == Failure(NoOption("secret_key")))
      && (("access_key" in items && "secret_key" in items && "bucket_name" !in items)
            ==> r == Failure(NoOption("bucket_name")))
      && (("access_key" in items && "secret_key" in items && "bucket_name" in items && "final_dir" !in items)
            ==> r == Failure(NoOption("final_dir")))
      && (("access_key" in items && "secret_key" in items && "bucket_name" in items && "final_dir" in items
           && "delete" in items && ParseBoolean(items["delete"]).None?)
            ==> r == Failure(NotABoolean(items["delete"])))
    ensures r.Success? ==>
      var items := c.sections[c.section];
      && r.value.accessKey == items["access_key"]
      && r.value.secretKey == items["secret_key"]
      && r.value.bucketName == items["bucket_name"]
      && r.value.path == (if "path" in items then items["path"] else "")
      && r.value.finalDir == items["final_dir"]
      && r.value.delete == (if "delete" in items then ParseBoolean(items["delete"]) else None)
      && r.value.kwargs == ExtraOptions(items)
  {
    var accessKey :- c.AccessKey();
    var secretKey :- c.SecretKey();
    var bucketName :- c.BucketName();
    // The section exists from here on: the lookups above found it.
    var path := c.Path().value;
    var finalDir :- c.FinalDir();
    var delete :- c.Delete();
    var kwargs := ExtraOptions(c.sections[c.section]);
    Success(ClientArgs(accessKey, secretKey, bucketName, path, finalDir, delete, kwargs))
  }

  /** A configuration without a `delete` option never lets a pass delete anything. */
  lemma AbsentDeleteKeepsBucket(c: Config, b: Bucket, local: Dir, faults: Faults)
    requires ReadClientArgs(c).Success?
    requires "delete" !in c.sections[c.section]
    ensures var args := ReadClientArgs(c).value;
      args.delete == None && Pass(b, local, args.path, args.delete, faults).bucket == b
  {
  }

  class S3Client {
    const bucketName: string
    const path: string
    const finalDir: string
    const delete: Option<bool>
    /** How the environment fails this client's calls. */
    const faults: Faults
    /** The remote bucket. */
    var bucket: Bucket
    /** The entries of the final directory. */
    var local: Dir

    constructor (bucketName: string, path: string, finalDir: string, delete: Option<bool>,
                 bucket: Bucket, local: Dir, faults: Faults)
      ensures this.bucketName == bucketName && this.path == path && this.finalDir == finalDir
      ensures this.delete == delete && this.faults == faults
      ensures this.bucket == bucket && this.local == local
    {
      this.bucketName := bucketName;
      this.path := path;
      this.finalDir := finalDir;
      this.delete := delete;
      this.faults := faults;
      this.bucket := bucket;
      this.local := local;
    }

    /** `from_config`: a client built from the configuration, or the error reading it raises. */
    static method FromConfig(c: Config, bucket: Bucket, local: Dir, faults: Faults)
      returns (r: Result<S3Client, ConfigError>)
      ensures r.Failure? <==> ReadClientArgs(c).Failure?
      ensures r.Failure? ==> r.error == ReadClientArgs(c).error
      ensures r.Success? ==>
        var args := ReadClientArgs(c).value;
        && fresh(r.value)
        && r.value.bucketName == args.bucketName && r.value.path == args.path
        && r.value.finalDir == args.finalDir && r.value.delete == args.delete
        && r.value.bucket == bucket && r.value.local == local && r.value.faults == faults
    {
      var args := ReadClientArgs(c);
      if args.Failure? {
        return Failure(args.error);
      }
      var client := new S3Client(args.value.bucketName, args.value.path, args.value.finalDir,
                                 args.value.delete, bucket, local, faults);
      return Success(client);
    }

    /**
     * `list_files`: the keys under the prefix in listing order, or `None` when
     * the listing raises. A pass lists twice; `again` says whether this is the
     * delete phase's second listing, which fails on its own.
     */
    method ListFiles(again: bool) returns (keys: Option<seq<string>>)
      requires bucket.Valid()
      ensures keys.None? <==> if again then faults.relisting else faults.listing
      ensures keys.Some? ==> forall k :: k in keys.value <==> k in bucket.objects && path <= k
      ensures keys.Some? ==> keys.value == ListObjects(bucket, path)
    {
      if (if again then faults.relisting else faults.listing) {
        return None;
      }
      return Some(ListObjects(bucket, path));
    }

    /**
     * `download_file`: fetch the key and write its content under its base
     * name, replacing that entry and no other. It raises, writing nothing,
     * when the fetch fails or the name is the final directory or its parent.
     */
    method DownloadFile(key: string) returns (raised: bool)
      modifies this`local
      ensures raised <==> !IsEntryName(Basename(key)) || GetObject(bucket, faults.download, key).None?
      ensures !raised ==> key in bucket.objects && local == old(local)[Basename(key) := bucket.objects[key]]
      ensures raised ==> local == old(local)
    {
      var body := GetObject(bucket, faults.download, key);
      if body.None? {
        return true;
      }
      var name := Basename(key);
      if !IsEntryName(name) {
        return true;
      }
      local := local[name := body.value];
      return false;
    }

    /**
     * `download_files`: skip every listed key whose base name exists locally,
     * download the others in listing order, and stop at the first exception.
     */
    method DownloadFiles() returns (ok: bool)
      requires bucket.Valid()
      modifies this`local
      ensures Download(ok, local) == DownloadPhase(bucket, path, faults, old(local))
    {
      var listing := ListFiles(false);
      if listing.None? {
        return false;
      }
      var keys := listing.value;
      var i := 0;
      while i < |keys|
        invariant 0 <= i <= |keys|
        invariant DownloadAll(keys, bucket, faults.download, old(local))
               == DownloadAll(keys[i..], bucket, faults.download, local)
      {
        assert keys[i..][0] == keys[i] && keys[i..][1..] == keys[i + 1..];
        if !ExistsLocal(local, keys[i]) {
          var raised := DownloadFile(keys[i]);
          if raised {
            return false;
          }
        }
        i := i + 1;
      }
      return true;
    }

    /** `delete_file`: remove one key from the bucket, unless the call raises. */
    method DeleteFile(key: string) returns (raised: bool)
      modifies this`bucket
      ensures raised <==> key in faults.delete
      ensures bucket == if raised then old(bucket) else DeleteObject(old(bucket), key)
    {
      if key in faults.delete {
        return true;
      }
      bucket := DeleteObject(bucket, key);
      return false;
    }

    /** `delete_files`: list the keys under the prefix again and delete each, stopping at the first exception. */
    method DeleteFiles() returns (raised: bool)
      requires bucket.Valid()
      modifies this`bucket
      ensures bucket.Valid()
      ensures Deletion(!raised, bucket) == DeletePhase(old(bucket), path, faults)
    {
      var listing := ListFiles(true);
      if listing.None? {
        return true;
      }
      var keys := listing.value;
      var i := 0;
      while i < |keys|
        invariant 0 <= i <= |keys|
        invariant bucket.Valid()
        invariant DeleteAll(keys, old(bucket), faults.delete) == DeleteAll(keys[i..], bucket, faults.delete)
      {
        assert keys[i..][0] == keys[i] && keys[i..][1..] == keys[i + 1..];
        raised := DeleteFile(keys[i]);
        if raised {
          return true;
        }
        i := i + 1;
      }
      return false;
    }

    /**
     * `process_files`: the download pass, then the deletion pass only when the
     * downloads succeeded and the delete flag is truthy. `raised` reports an
     * exception escaping from the deletion pass.
     */
    method ProcessFiles() returns (raised: bool)
      requires bucket.Valid()
      modifies this`bucket, this`local
      ensures bucket.Valid()
      ensures Outcome(bucket, local, raised) == Pass(old(bucket), old(local), path, delete, faults)
    {
      var ok := DownloadFiles();
      if ok && Truthy(delete) {
        raised := DeleteFiles();
      } else {
        raised := false;
      }
    }
  }
}
