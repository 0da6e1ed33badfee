# s3downloader, modelled in Dafny

s3downloader copies the objects under a prefix of a remote object-storage
bucket into a local "final directory". It then deletes them from the bucket,
but only if every download went through and the `delete` option is set. It is
configured by one section of an INI file.

This project models two parts of it:

* **The synchronisation pass** of `S3Client`, in `client.dfy`. The class holds
  the client's settings, the remote bucket and the final directory. Its
  methods are loops over the listed keys, and each is proved equal to a pure
  function of module `Sync` (`sync.dfy`).
  * The bucket (`Storage.Bucket`, `storage.dfy`) maps keys to contents and
    carries the order in which the service lists them.
  * The final directory (`Sync.Dir`) maps entry names to contents.
  * Local placement uses `Paths.Basename` (`paths.dfy`). It computes the last
    path component as `pathlib` does, so a key's directory part is dropped.
  * `Sync` holds the properties of the pass:
    * deletion happens only after a download phase that fully succeeded, and
      only when the flag is truthy;
    * an entry that already exists locally is never overwritten;
    * the first exception aborts every later key;
    * on a name collision, the first listed key wins;
    * once the gate opens and no deletion or second listing raises, every key
      under the prefix is deleted, including keys that were skipped; the first
      `delete_object` that raises stops the deletions and escapes the pass;
    * a pass that succeeded is a fixed point, whatever fails in the next pass.
* **The configuration record** `Config`, in `configuration.dfy`. A section is a
  map from option to value. The model covers:
  * the four required lookups, which fail when the option is absent;
  * `path`, which defaults to `""`;
  * `delete`, which is `None` when absent and an error when not a boolean;
  * `kwargs`, which is a loop proved equal to the section minus the six
    reserved options.

  `Client.ReadClientArgs` models `from_config`. It reads the accessors in the
  order the constructor call evaluates them, so the first failing accessor
  decides the error.

The environment's failures are an explicit oracle, `Sync.Faults`. A pass
calls `list_files` twice: once in `download_files` and again in
`delete_files`. The oracle says whether each of the two listing calls raises,
and which keys' downloads and deletions raise. The rules below come from the
source:

* An exception anywhere in the download phase, the first listing included,
  makes `download_files` return `False`.
* An exception in the deletion phase, the second listing included, is not
  caught, so it escapes `process_files`. `ProcessFiles` reports it as
  `raised`.

Details of the code a reader might not expect; the model follows the code:

* `move_file` writes straight into the final path. It does not stage the file
  and rename it atomically. The model performs one overwrite of
  `local[Basename(key)]`.
* `delete_files` lists the bucket again rather than reusing the first listing.
  The model lists again. With no outside writers, downloads leave the bucket
  unchanged, so both listings return the same keys, but the second call can
  raise on its own (`Sync.PassRelistingRaisedKeepsBucket`).
* An absent `delete` option yields `None`. `None` is falsy, so the
  gate stays closed (`Client.AbsentDeleteKeepsBucket`).
* The base names `""` and `".."` denote the final directory itself and its
  parent. Both always exist, so `_exists_local` is true for such keys and they
  are always skipped. `download_file` on such a key raises, because it opens a
  directory for writing.

## Model

| member | source | states |
|---|---|---|
| Paths.Basename | src/s3downloader/classes/client.py:97 | The local name of a key never contains '/' and is never "." (pathlib drops empty and "." components). |
| Paths.PlainNameIsItsOwnBasename | src/s3downloader/classes/client.py:97 | A single component other than "" and "." is its own name. |
| Paths.BasenameIdempotent | src/s3downloader/classes/client.py:97 | Taking the name of a name changes nothing. |
| Paths.BasenameIgnoresDirectory | src/s3downloader/classes/client.py:97 | For any directory ending in '/', the key placed under it has the same name as the key alone: the path prefix is discarded. |
| Storage.KeysWithPrefix | src/s3downloader/classes/client.py:65-70 | A key is listed exactly when it is in the bucket's order and starts with the prefix; the empty prefix lists every key. |
| Storage.KeysWithPrefixAppend | src/s3downloader/classes/client.py:65-70 | Listing keeps the service's order: listing two runs of keys gives the two listings concatenated. |
| Storage.ListObjects | src/s3downloader/classes/client.py:65-70 | For a well-formed bucket, the listing holds exactly the stored keys under the prefix, and is empty when no stored key matches (no `Contents`). |
| Storage.GetObject | src/s3downloader/classes/client.py:90 | A fetch yields the stored content of the key, and fails exactly when the key is absent or the environment fails it. |
| Storage.DeleteObject | src/s3downloader/classes/client.py:107 | Deleting a key removes it from the objects and from the listing order and nothing else, and keeps the bucket well-formed. |
| Sync.ExistsLocal | src/s3downloader/classes/client.py:115-118 | A key without a directory part exists exactly when it is an entry of the final directory; a key whose name is the final directory itself or its parent always exists; any key whose name is an entry exists. |
| Sync.Truthy | src/s3downloader/classes/client.py:112 | Python truthiness of the optional flag: the gate opens exactly when the flag is `True` (not for `None` or `False`). |
| Sync.ExistsLocalIgnoresDirectory | src/s3downloader/classes/client.py:115-118 | Whether a key exists locally depends on its base name only, not on its directory part. |
| Sync.DownloadAll | src/s3downloader/classes/client.py:75-79 | The download loop never removes an entry, and every entry it adds is an entry name that is the base name of some listed key. |
| Sync.DownloadPhase | src/s3downloader/classes/client.py:72-85 | A raising listing makes the phase fail with the directory unchanged; the phase never removes an entry; after a phase that succeeded over a well-formed bucket, every stored key under the prefix exists locally. |
| Sync.DeletePhase | src/s3downloader/classes/client.py:100-103 | A raising second listing fails with the bucket unchanged; otherwise the phase fails only when some listed key's deletion raises; a phase that succeeded over a well-formed bucket removed exactly the objects under the prefix and kept every other object's content; the bucket stays well-formed. |
| Sync.Pass | src/s3downloader/classes/client.py:109-113 | With a falsy flag the bucket is unchanged and nothing escapes; an exception escapes only with a truthy flag, after a first listing that did not raise, and only because the second listing or some listed key's deletion raised; no entry is removed; the bucket stays well-formed. |
| Sync.DeleteAll | src/s3downloader/classes/client.py:100-103 | The delete loop succeeds exactly when no listed key's deletion raises, and keeps the bucket well-formed. |
| Sync.DownloadAllAppend | src/s3downloader/classes/client.py:72-85 | Running the loop over two runs of keys is running it over the first and, only if that succeeded, over the second from the resulting directory. |
| Sync.DownloadAllAborts | src/s3downloader/classes/client.py:72-85 | A failed loop failed at one key i: the keys before i all went through, key i was fetched and raised, and the directory is exactly what the keys before i left (keys after i untouched). |
| Sync.DownloadAllKeepsExisting | src/s3downloader/classes/client.py:75-79 | Every entry present before the loop is still present with the same content, whatever the remote content: existing files are never overwritten. |
| Sync.DownloadAllCovers | src/s3downloader/classes/client.py:75-79 | After a loop that succeeded, every listed key's base name exists locally. |
| Sync.DownloadAllSkipsPresent | src/s3downloader/classes/client.py:75-79 | When every key's base name exists locally, the loop succeeds and writes nothing, whatever download faults there are. |
| Sync.DownloadedFromFirstListed | src/s3downloader/classes/client.py:75-98 | Every name the loop adds is an entry name, and its content is that of the first listed key with that base name (the first in listing order wins a collision). |
| Sync.FirstListedKeyWins | src/s3downloader/classes/client.py:75-98 | After a loop that succeeded, the first listed key with a given base name not present before has its remote content under that name. |
| Sync.DownloadAllIdempotent | src/s3downloader/classes/client.py:75-79 | Running a succeeded loop again over the same keys writes nothing and succeeds, even under other download faults. |
| Sync.DeleteAllRemovesListed | src/s3downloader/classes/client.py:100-107 | A delete loop that succeeded removed exactly the listed keys, from the objects and the order, and kept every other object's content. |
| Sync.DeleteAllStopsAtFault | src/s3downloader/classes/client.py:100-107 | A delete loop that raised did so at the first faulty key, having deleted exactly the keys before it. |
| Sync.PassDeletesOnlyAfterFullDownload | src/s3downloader/classes/client.py:109-113 | The bucket changes only when the download phase returned true and the flag is truthy; if either fails, the bucket is unchanged and nothing escapes. |
| Sync.PassRelistingRaisedKeepsBucket | src/s3downloader/classes/client.py:100-113 | When the gate opens and the second listing raises, the exception escapes the pass, the bucket is unchanged and the directory is what the download phase left. |
| Sync.PassEmptiesPrefix | src/s3downloader/classes/client.py:109-113 | When the gate opens and no deletion raises, every object under the prefix is deleted (skipped ones included) and every other object is kept unchanged. |
| Sync.PassNeverOverwrites | src/s3downloader/classes/client.py:109-118 | No pass changes an entry that was in the final directory when it began. |
| Sync.PassIdempotent | src/s3downloader/classes/client.py:109-113 | After a pass whose downloads succeeded and from which nothing escaped, a second pass under any faults changes neither the bucket nor the directory, with delete on or off; it raises exactly when the flag is on, its first listing succeeds and its second listing raises. |
| Scenarios.ExistingFileIsKept | src/s3downloader/classes/client.py:109-118 | With delete off, a pass over `images/a.png`, `images/b.png` into a directory holding a different `a.png` keeps it, downloads only `b.png`, and leaves the bucket unchanged. |
| Scenarios.DeleteOnEmptiesPrefix | src/s3downloader/classes/client.py:109-113 | With delete on and no faults, both images are downloaded under their base names and deleted; the object outside the prefix stays. |
| Configuration.ParseBoolean | src/s3downloader/classes/config.py:34-36 | A value converts exactly when its lowercase spelling is one of the eight accepted boolean spellings. |
| Configuration.ParseBooleanIgnoresCase | src/s3downloader/classes/config.py:34-36 | A spelling and its lowercase convert to the same result. |
| Configuration.ExtraOptions | src/s3downloader/classes/config.py:38-51 | The pass-through options hold exactly the section's entries whose name is not reserved, each with the section's value. |
| Configuration.Config.Items | src/s3downloader/classes/config.py:16 | The section lookup succeeds exactly when the section exists, and otherwise fails with the section's name. |
| Configuration.Config.Required | src/s3downloader/classes/config.py:14-24 | A required lookup returns the section's value when present, and otherwise fails naming the missing section or option. |
| Configuration.Config.AccessKey | src/s3downloader/classes/config.py:14-16 | Returns the section's `access_key` when present, and fails when it is absent. |
| Configuration.Config.SecretKey | src/s3downloader/classes/config.py:18-20 | Returns the section's `secret_key` when present, and fails when it is absent. |
| Configuration.Config.BucketName | src/s3downloader/classes/config.py:22-24 | Returns the section's `bucket_name` when present, and fails when it is absent. |
| Configuration.Config.Path | src/s3downloader/classes/config.py:26-28 | Returns the section's `path` when present and "" when absent; fails only without the section. |
| Configuration.Config.FinalDir | src/s3downloader/classes/config.py:30-32 | Returns the section's `final_dir` when present, and fails when it is absent. |
| Configuration.Config.Delete | src/s3downloader/classes/config.py:34-36 | `None` when the option is absent; the converted flag when the value is an accepted spelling; a NotABoolean error carrying the value otherwise. |
| Configuration.Config.Kwargs | src/s3downloader/classes/config.py:38-51 | The loop over the section's entries yields exactly the pass-through options (the section minus the six reserved names), whatever order it visits them in. |
| Configuration.Config.SectionPartition | src/s3downloader/classes/config.py:14-51 | Every entry goes either to its named accessor (reserved) or to the pass-through options, never both. |
| Client.ReadClientArgs | src/s3downloader/classes/client.py:38-49 | The constructor arguments succeed exactly when the section has the four required options and a well-formed or absent `delete`. Otherwise the error is the first missing one in evaluation order, and a malformed `delete` after the four required options gives the NotABoolean error carrying its value. On success, each argument is the accessor's value. |
| Client.AbsentDeleteKeepsBucket | src/s3downloader/classes/config.py:34-36 | Without a `delete` option the flag is `None`, and no pass changes the bucket. |
| Client.S3Client.constructor | src/s3downloader/classes/client.py:17-36 | The client keeps its bucket name, prefix, final directory and delete flag, over the given bucket and directory. |
| Client.S3Client.FromConfig | src/s3downloader/classes/client.py:38-49 | Builds a client from the arguments read from the configuration, or fails with exactly the error reading them raises. |
| Client.S3Client.ListFiles | src/s3downloader/classes/client.py:62-70 | Returns the stored keys under the prefix in listing order, or fails exactly when that call (the first or the second listing of the pass) raises. |
| Client.S3Client.DownloadFile | src/s3downloader/classes/client.py:87-98 | On success the entry named by the key's base name holds the key's remote content and no other entry changes; on an exception nothing changes. |
| Client.S3Client.DownloadFiles | src/s3downloader/classes/client.py:72-85 | The loop returns and leaves exactly what `Sync.DownloadPhase` prescribes: skip present names, download the rest in order, stop at the first exception. |
| Client.S3Client.DeleteFile | src/s3downloader/classes/client.py:105-107 | Deletes the key from the bucket unless the call raises, in which case the bucket is unchanged. |
| Client.S3Client.DeleteFiles | src/s3downloader/classes/client.py:100-103 | Lists again and deletes every listed key in order, exactly as `Sync.DeletePhase`, stopping at the first exception; the bucket stays well-formed. |
| Client.S3Client.ProcessFiles | src/s3downloader/classes/client.py:109-113 | The new bucket, directory and escaping exception are exactly `Sync.Pass` of the old state, so every `Pass` lemma applies to the method. |

## Left out

- Connecting to the storage service (`connect`, `boto3.client`, credentials and `NoCredentialsError`) is foreign SDK code. The bucket is abstract state, and a failing connection shows up only through the `Faults` oracle. The access and secret keys and `kwargs` are read, but nothing uses them.
- Storage.ListObjects: does not model the service's limit of 1000 keys per listing call (pagination). With more than 1000 keys under the prefix, only the first page is listed and deleted.
- `tempfile` staging, `seek` and the byte-stream copy are collapsed into one content copy. An exception raised after `open(..., "wb")` has truncated the final file (a failed write) is not modelled. A failed download leaves the directory unchanged in the model.
- The final directory is a flat map from name to content. Subdirectories, symbolic links and file-system errors from `exists()` are not modelled.
- `mkdir` and the `is_dir` assertion in the constructor are file-system I/O. The final directory is taken to exist.
- `ConfigParser` internals are library behaviour: reading and layering of files, option-name lowercasing, the DEFAULT section and value interpolation. The parsed sections are given as a map. The boolean conversion matches the library's eight spellings, with ASCII lowercasing.
- Logging, `print` and `__main__.py` (argument parsing) are not modelled.
- Concurrency and outside writers to the bucket are not modelled. The code is sequential, so both listings within one pass see the same keys.
