# asset-cdn: the `asset-cdn:sync` command

The `asset-cdn:sync` console command keeps a CDN disk in line with the local
asset directory. It lists the remote disk once, decides which local files to
upload and which remote files to delete, uploads the files one by one, then
deletes the stale remote files with a single batch call. With a version (the
`--version-path` option), remote keys are compared under the prefix
`"<version>/"`.

The model has two modules:

- `SyncDiff` (`diff.dfy`) holds the two pure filters.
  - `FilesToSync` keeps a local file when its key is missing remotely, when
    the remote size differs, or when the checksums differ. The checks run in
    that order and stop at the first that decides. `Check` records which
    remote reads each file costs (`Verdict.diskReads`): none for an unlisted
    key, a `size` read for a listed one, then a `get` read only when the sizes
    agree. `SyncReads` strings those reads together in local order, so the
    short-circuit is a stated property.
  - `FilesToDelete` keeps a remote entry that equals no prefixed local
    pathname. `DeleteFilter` models the closure's captured copy of the local
    pathnames. Every entry prefixes that same copy, so the prefix is applied
    once and never accumulates.
  - The version counts as PHP truthiness does: no version, `""` and `"0"`
    mean no prefix (`UsesPrefix`).
- `SyncCommandModel` (`command.dfy`) holds the command.
  - `Disk` is a class. Its stored objects and path order are constant. Its
    `requests` field records every call the command makes on it: the
    listing, each `size` and `get` read of the upload filter, each upload,
    the delete, and the answer the storage gave to each write.
  - `FilesystemManager` maps disk names to disks.
  - `SyncCommand` is the command object, with the two fields `handle`
    assigns and the console `output`. `Handle`, `Synchronise`, `UploadAll`
    and `ReportDeleted` follow the source's statements and loops.
    `SelectFilesToSync` and `CheckFile` run the upload filter against the
    disk, one file at a time, and are proved to return `FilesToSync` and to
    send exactly the reads of `SyncReads`.
    `ReportDeleted` is the loop that runs only after a successful delete.
  - A whole run is specified by `SyncRun`. The disk receives:
    - one listing of the version directory;
    - then the filter's reads, per local file in local order, exactly those
      its `Check` makes (`Probes` of `SyncReads`);
    - then one upload per file to sync, in order, each with the configured
      options and the directory the command computes;
    - then one delete of exactly the list to delete.

    Both lists are computed from that single listing. The console shows one
    line per upload, "Problem uploading" on failure and "Successfully
    uploaded" on success, and later uploads still happen after a failure.
    After those lines it shows one "Successfully deleted" line per entry, in
    order, exactly when the delete succeeded. `RunOf` states all of this for
    given lists, and `SyncRun` instantiates it with the two filters.
    `RunPrintsUpload` and `RunPrintsDeleted` give the printed text of each
    of those lines and whether it goes to the error channel.

The checksum (`md5`) is a function parameter. The storage's success answer for
`putFileAs` and `delete` is nondeterministic, so every property holds for
every pattern of failures. The upload directory comes from
`isUsingVersion()` and the finder's `versionRelativePath`, which are not part
of this model. It is a parameter (`usingVersion`, `versionRelativePath`), and
it is built from the file's directory (`relativePath`), not from the pathname
the diff compares.

## Model

| member | source | states |
|---|---|---|
| SyncDiff.UsesPrefix | src/Commands/SyncCommand.php:108 | (definition) PHP truthiness of the version: no version, "" and "0" mean no prefix; the same test guards the prefix at :153 |
| SyncDiff.Prefixed | src/Commands/SyncCommand.php:108-110 | (definition) the key a local pathname is compared with: "<version>/<pathname>" when the version is truthy, the bare pathname otherwise; the same form is built at :155 |
| SyncDiff.PrefixedInjective | src/Commands/SyncCommand.php:153-159 | two pathnames give the same key iff they are equal, so prefixing never merges two local files |
| SyncDiff.Check | src/Commands/SyncCommand.php:105-138 | (definition) the closure's verdict for one file, with the remote reads it makes before deciding |
| SyncDiff.CheckReads | src/Commands/SyncCommand.php:113-129 | a check makes at most two reads, all of the file's own listed key, and a file kept back has had both its size and its contents read |
| SyncDiff.SyncReads | src/Commands/SyncCommand.php:105-140 | (definition) the filter's reads over all local files, in local order, each file's those of its own check |
| SyncDiff.SyncReadsBounds | src/Commands/SyncCommand.php:105-140 | the filter makes at most two reads per file, each of a listed key that is some local file's prefixed pathname |
| SyncDiff.FilesToSync | src/Commands/SyncCommand.php:103-141 | the files to upload are an order-preserving subsequence of the local files, reindexed, never longer than the local list |
| SyncDiff.SyncMembership | src/Commands/SyncCommand.php:105-138 | a file is scheduled exactly when it is a local file and its own three-step check answers true |
| SyncDiff.SyncMultiplicity | src/Commands/SyncCommand.php:105-140 | every occurrence of a file to upload is kept, and every occurrence of any other file is dropped |
| SyncDiff.SyncedIffChanged | src/Commands/SyncCommand.php:106-137 | a file is scheduled iff it is local and its prefixed key is missing from the listing, or the remote size differs, or the checksums differ |
| SyncDiff.AbsentIsSynced | src/Commands/SyncCommand.php:113-115 | a local file whose key is not listed is uploaded, and the disk is not read for it |
| SyncDiff.SizeMismatchIsSynced | src/Commands/SyncCommand.php:117-123 | a listed file with a different remote size is uploaded; only the size is read, never the contents |
| SyncDiff.EqualSizeSyncedIffChecksumDiffers | src/Commands/SyncCommand.php:125-137 | with equal sizes the file is uploaded iff the checksums differ; both the size and the contents are read |
| SyncDiff.AbsentCheckIgnoresObjects | src/Commands/SyncCommand.php:113-115 | for an unlisted key the verdict and reads are the same whatever the disk stores |
| SyncDiff.SizeMismatchCheckIgnoresContents | src/Commands/SyncCommand.php:117-123 | on a size mismatch the verdict and reads are the same for any two disks that store the same size there |
| SyncDiff.EqualSizeCheckIgnoresAllButChecksum | src/Commands/SyncCommand.php:125-137 | with matching sizes, two disks whose stored contents have the same checksum give the same decision |
| SyncDiff.IdenticalCopyNotSynced | src/Commands/SyncCommand.php:117-137 | a listed remote copy with the same size and contents is never uploaded again |
| SyncDiff.Pathnames | src/Commands/SyncCommand.php:150 | the local files' relative pathnames, one per file, in order |
| SyncDiff.PrefixAll | src/Commands/SyncCommand.php:153-157 | every pathname prefixed exactly once with the version, in order, none dropped |
| SyncDiff.DeleteFilter | src/Commands/SyncCommand.php:152-160 | the kept entries are an order-preserving subsequence of the remote entries |
| SyncDiff.FilesToDelete | src/Commands/SyncCommand.php:148-163 | the files to delete are an order-preserving subsequence of the remote listing |
| SyncDiff.KeptEntryMatchesNoLocal | src/Commands/SyncCommand.php:153-159 | an entry is absent from the prefixed pathnames iff no local file's prefixed pathname equals it |
| SyncDiff.DeleteFilterMembership | src/Commands/SyncCommand.php:152-160 | an entry is kept iff it is a remote entry not among the prefixed captured pathnames |
| SyncDiff.DeleteMembership | src/Commands/SyncCommand.php:150-160 | a remote entry is deleted iff it equals no prefixed local pathname |
| SyncDiff.DeleteFilterMultiplicity | src/Commands/SyncCommand.php:152-162 | every occurrence of an unmatched entry is kept and every occurrence of a matched one dropped |
| SyncDiff.DeleteMultiplicity | src/Commands/SyncCommand.php:150-162 | the delete list holds each unmatched entry as often as the listing does, and no matched entry |
| SyncDiff.NothingCapturedKeepsAll | src/Commands/SyncCommand.php:152-160 | with no captured pathnames the filter keeps every entry |
| SyncDiff.NoLocalDeletesAll | src/Commands/SyncCommand.php:148-163 | with no local files the whole remote listing is deleted, in order |
| SyncDiff.DeleteDisjointFromLocal | src/Commands/SyncCommand.php:150-160 | no local file's prefixed pathname is ever deleted |
| SyncDiff.SkippedFileKeepsRemoteCopy | src/Commands/SyncCommand.php:103-163 | a local file that is not uploaded is listed remotely, and that remote copy is not deleted |
| SyncDiff.EveryEntryDeletedOrMatched | src/Commands/SyncCommand.php:152-160 | every listed entry is either deleted or the prefixed key of some local file |
| SyncDiff.ChecksumMismatchExample | src/Commands/SyncCommand.php:125-135 | same name and size with different checksums: the file is uploaded |
| SyncDiff.VersionedUnchangedExample | src/Commands/SyncCommand.php:108-137 | under version "v1" an identical copy at "v1/js/app.js" is not uploaded |
| SyncDiff.PrefixNotAccumulatedExample | src/Commands/SyncCommand.php:153-157 | under version "v" two matched entries are both kept; the second is not compared with "v/v/b.js" |
| SyncDiff.StaleRemoteExample | src/Commands/SyncCommand.php:152-160 | a remote file with no local counterpart is deleted |
| SyncCommandModel.Listing | src/Commands/SyncCommand.php:50-52 | the listing is an order-preserving subsequence of the stored paths and holds exactly the stored paths inside the version directory |
| SyncCommandModel.Disk.AllFiles | src/Commands/SyncCommand.php:50-52 | returns the listing of the directory, every path of which can be read, and records one listing request |
| SyncCommandModel.Disk.Size | src/Commands/SyncCommand.php:117-119 | returns the stored size of a listed path and records one size read |
| SyncCommandModel.Disk.Get | src/Commands/SyncCommand.php:125-129 | returns the stored contents of a listed path and records one get read |
| SyncCommandModel.Disk.PutFileAs | src/Commands/SyncCommand.php:71-78 | records one upload with its directory, source, name and options, and the storage's answer |
| SyncCommandModel.Disk.Delete | src/Commands/SyncCommand.php:89-91 | records one batch delete of the given paths and the storage's answer |
| SyncCommandModel.UploadDir | src/Commands/SyncCommand.php:66-68 | (definition) the upload directory: the finder's versioned path of the file's directory when the command uses a version, the file's directory otherwise |
| SyncCommandModel.Probes | src/Commands/SyncCommand.php:117-129 | (definition) the disk requests a sequence of the filter's reads sends |
| SyncCommandModel.ProbesAt | src/Commands/SyncCommand.php:117-129 | one disk request per read, in order: a size read is a `size` call and a contents read a `get` call on the same path |
| SyncCommandModel.ProbesAppend | src/Commands/SyncCommand.php:105-129 | the requests of two traces in a row are those of the first followed by those of the second, so each file's reads follow the previous file's |
| SyncCommandModel.IsError | src/Commands/SyncCommand.php:82-86 | (definition) only a failed upload's line goes to the error channel |
| SyncCommandModel.Text | src/Commands/SyncCommand.php:83-93 | (definition) the three messages the command prints |
| SyncCommandModel.UploadLine | src/Commands/SyncCommand.php:82-86 | (definition) the line after one upload: a failure line when the storage answered false, a success line otherwise |
| SyncCommandModel.UploadLineText | src/Commands/SyncCommand.php:82-86 | an upload's line reads "Successfully uploaded: " or "Problem uploading: ", then the directory, "/" and the file name, and is an error exactly when the upload failed |
| SyncCommandModel.DeletedLines | src/Commands/SyncCommand.php:92-94 | (definition) one "deleted" line per path, in order |
| SyncCommandModel.Reported | src/Commands/SyncCommand.php:82-94 | (definition) the lines printed in answer to one request: none for reads and listings, one per upload, one per path after a successful delete and none after a failed one |
| SyncCommandModel.Report | src/Commands/SyncCommand.php:63-94 | (definition) the lines printed in answer to a sequence of requests, in order |
| SyncCommandModel.DeletedLinesAt | src/Commands/SyncCommand.php:92-94 | one "deleted" line per path, line k naming path k |
| SyncCommandModel.ReportOfUploads | src/Commands/SyncCommand.php:82-86 | uploads print one line each: an error line exactly when that upload failed, otherwise a success line |
| SyncCommandModel.UploadLinesOfRun | src/Commands/SyncCommand.php:63-87 | after the earlier output, line k names the k-th file's upload directory and file name and says whether that upload succeeded; the delete's lines follow |
| SyncCommandModel.LinesOfRun | src/Commands/SyncCommand.php:63-95 | the run's output is the upload lines, then one line per deleted entry if and only if the delete succeeded, and nothing else |
| SyncCommandModel.RunFrom | src/Commands/SyncCommand.php:50-95 | a listing, then the filter's reads, then the uploads of the files to sync, then one delete of the files to delete, with their report, is a run of those lists |
| SyncCommandModel.RunPrintsUpload | src/Commands/SyncCommand.php:63-86 | in a run, the k-th line after the earlier output prints the success or failure message for the k-th file to sync, with its directory and file name, on the error channel exactly when its upload failed |
| SyncCommandModel.RunPrintsDeleted | src/Commands/SyncCommand.php:89-94 | in a run, each line after the upload lines prints "Successfully deleted: " and the matching entry to delete, never as an error |
| SyncCommandModel.ZeroVersionExample | src/Commands/SyncCommand.php:50-59 | with version "0" directory "0" is listed but compared by bare names, so an identical copy at "0/a.js" is uploaded again and also deleted |
| SyncCommandModel.SyncCommand.Handle | src/Commands/SyncCommand.php:46-96 | sets the disk name and the manager; an unknown disk sends no request and prints nothing; otherwise the named disk receives exactly one run (`SyncRun`) and no other disk is touched |
| SyncCommandModel.SyncCommand.Synchronise | src/Commands/SyncCommand.php:50-95 | one listing, both diffs from it, the filter's reads, the uploads and one batch delete, with their console lines (`SyncRun`) |
| SyncCommandModel.SyncCommand.SelectFilesToSync | src/Commands/SyncCommand.php:103-141 | returns exactly `FilesToSync` of the listing and sends the disk exactly the reads of `SyncReads`, in order |
| SyncCommandModel.SyncCommand.CheckFile | src/Commands/SyncCommand.php:105-138 | decides one file as `Check` does and sends the disk exactly that check's reads |
| SyncCommandModel.SyncCommand.UploadAll | src/Commands/SyncCommand.php:63-87 | one upload per file to sync, in order, with the computed directory, the source path, the file name and the configured options, one line per upload, whatever the earlier answers |
| SyncCommandModel.SyncCommand.ReportDeleted | src/Commands/SyncCommand.php:92-94 | appends one "Successfully deleted" line per path, in order |

## Left out

- The command's signature, its description and the `BaseCommand` helpers `version()` and `isUsingVersion()` are not part of this model. The version is an input `Option<string>`, and `isUsingVersion()` is a boolean input.
- `mapToPathname` is not part of this model. It is taken to map each local file to its relative pathname, which is the key `filesToSync` compares.
- `Finder::getFiles` and `Finder::versionRelativePath` are not part of this model. The local files are an input sequence, and the versioned upload directory is a function parameter.
- PHP's loose comparison in `in_array` and `!=` is modelled as exact equality of strings and integers. This covers numeric strings and "0e…" hex digests that compare equal as numbers.
- MD5 is an abstract function of the file contents (the `md5` parameter). The local read behind `md5_file` is not modelled; the remote `size` and `get` reads are recorded requests.
- The Laravel filesystem manager, config repository, `File` and `SplFileInfo` wrappers are reduced to the `Disk` and `FilesystemManager` classes, the `Config` record and the `LocalFile` record.
- Disk.PutFileAs: records the write but does not apply it to the stored objects, because the command reads nothing from the disk after the upload filter.
- Disk.Delete: records the delete but does not remove the stored objects, for the same reason.
- Disk.AllFiles: a listing is the stored paths below `"<directory>/"`, in storage order. The order a real storage lists in is not modelled beyond being fixed.
- SyncCommandModel.SyncCommand.Handle: an unknown disk name makes the framework throw; the model returns `resolved == false` instead, with the two fields already set.
- Console output is a sequence of `Line` values. `Text` renders each line's message and `IsError` its channel; terminal formatting is not modelled.
- Version "0" is falsy for both filters but is still passed to `allFiles` as a directory name. The model keeps both behaviours as the code has them (`ZeroVersionExample`).
- tests/Commands/PushCommandTest.php tests a different command, whose implementation is not part of this model.
