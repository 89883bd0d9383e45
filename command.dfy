/**
  The `asset-cdn:sync` console command: it lists the remote disk once,
  computes the two diffs of module SyncDiff, uploads every file to sync (a
  failed upload is reported and the loop goes on), then issues one batch delete
  and reports each deleted path only when that delete succeeds.
 */
module SyncCommandModel {
  import opened SyncDiff

  /** The upload options from the configuration, passed through verbatim. */
  type Options = map<string, string>

  /** The two configuration entries the command reads. */
  datatype Config = Config(disk: string, options: Options)

  /** A request the command sends to the remote disk, with the disk's answer. */
  datatype Request =
    | AllFilesCall(directory: Option<string>)
    | SizeCall(path: string)
    | GetCall(path: string)
    | PutFileAsCall(path: string, source: string, name: string, options: Options, ok: bool)
    | DeleteCall(paths: seq<string>, ok: bool)

  /** A line of console output, by the event it reports; `Text` renders it. */
  datatype Line =
    | Uploaded(path: string, name: string)
    | UploadFailed(path: string, name: string)
    | Deleted(path: string)

  /** Failed uploads are printed on the error channel, everything else as info. */
  predicate IsError(line: Line) {
    line.UploadFailed?
  }

  /** The printed text of a line. */
  function Text(line: Line): string {
    match line
    case Uploaded(path, name) => "Successfully uploaded: " + path + "/" + name
    case UploadFailed(path, name) => "Problem uploading: " + path + "/" + name
    case Deleted(path) => "Successfully deleted: " + path
  }

  /** `path` lies in `directory` (no directory, or the empty one, is the whole disk). */
  predicate InDirectory(path: string, directory: Option<string>) {
    match directory
    case None => true
    case Some(d) => d == "" || (|d| < |path| && path[..|d| + 1] == d + "/")
  }

  /** The paths of a recursive listing of `directory`, in the disk's own order. */
  function Listing(tree: seq<string>, directory: Option<string>): (r: seq<string>)
    ensures IsSubsequence(r, tree)
    ensures forall p :: p in r <==> p in tree && InDirectory(p, directory)
  {
    if tree == [] then []
    else
      var rest := Listing(tree[1..], directory);
      assert tree == [tree[0]] + tree[1..];
      if InDirectory(tree[0], directory) then [tree[0]] + rest else rest
  }

  /**
    A remote disk. `objects` and `tree` are what it stores (each stored path
    once, in listing order); `requests` is every request it has received.
    Whether a write succeeds is the storage's decision, not the command's.
   */
  class Disk {
    const objects: Objects
    const tree: seq<string>
    var requests: seq<Request>

    ghost predicate Valid() {
      ListedIn(tree, objects)
    }

    constructor (objects: Objects, tree: seq<string>)
      requires ListedIn(tree, objects)
      ensures Valid()
      ensures this.objects == objects && this.tree == tree && requests == []
    {
      this.objects := objects;
      this.tree := tree;
      requests := [];
    }

    method AllFiles(directory: Option<string>) returns (paths: seq<string>)
      requires Valid()
      modifies this`requests
      ensures paths == Listing(tree, directory)
      ensures ListedIn(paths, objects)
      ensures requests == old(requests) + [AllFilesCall(directory)]
    {
      paths := Listing(tree, directory);
      requests := requests + [AllFilesCall(directory)];
    }

    method Size(path: string) returns (size: int)
      requires path in objects
      modifies this`requests
      ensures size == objects[path].size
      ensures requests == old(requests) + [SizeCall(path)]
    {
      size := objects[path].size;
      requests := requests + [SizeCall(path)];
    }

    method Get(path: string) returns (contents: Bytes)
      requires path in objects
      modifies this`requests
      ensures contents == objects[path].contents
      ensures requests == old(requests) + [GetCall(path)]
    {
      contents := objects[path].contents;
      requests := requests + [GetCall(path)];
    }

    method PutFileAs(path: string, file: LocalFile, name: string, options: Options) returns (ok: bool)
      modifies this`requests
      ensures requests == old(requests) + [PutFileAsCall(path, file.pathname, name, options, ok)]
    {
      ok := *;
      requests := requests + [PutFileAsCall(path, file.pathname, name, options, ok)];
    }

    method Delete(paths: seq<string>) returns (ok: bool)
      modifies this`requests
      ensures requests == old(requests) + [DeleteCall(paths, ok)]
    {
      ok := *;
      requests := requests + [DeleteCall(paths, ok)];
    }
  }

  /** The framework's registry of configured disks, by name. */
  class FilesystemManager {
    const disks: map<string, Disk>

    constructor (disks: map<string, Disk>)
      ensures this.disks == disks
    {
      this.disks := disks;
    }
  }

  // ---------------------------------------------------------------------------
  // What the command sends and prints
  // ---------------------------------------------------------------------------

  /** The directory a file is uploaded into: versioned or not, as the command decides. */
  function UploadDir(file: LocalFile, version: Option<string>, usingVersion: bool,
                     versionRelativePath: (string, Option<string>) -> string): string
  {
    if usingVersion then versionRelativePath(file.relativePath, version) else file.relativePath
  }

  /** The request a read of the filter sends. */
  function Probe(read: Read): Request {
    match read
    case SizeOf(path) => SizeCall(path)
    case ContentsOf(path) => GetCall(path)
  }

  /** The requests a sequence of reads sends, one per read, in order. */
  function Probes(trace: seq<Read>): seq<Request> {
    if trace == [] then [] else Probes(trace[..|trace| - 1]) + [Probe(trace[|trace| - 1])]
  }

  /** Read k of a trace sends request k, of the same kind and on the same path. */
  lemma {:induction false} ProbesAt(trace: seq<Read>)
    ensures |Probes(trace)| == |trace|
    ensures forall k :: 0 <= k < |trace| ==> Probes(trace)[k] == Probe(trace[k])
  {
    if trace != [] {
      ProbesAt(trace[..|trace| - 1]);
    }
  }

  /** The requests of two traces in a row are those of the first, then those of the second. */
  lemma {:induction false} ProbesAppend(a: seq<Read>, b: seq<Read>)
    ensures Probes(a + b) == Probes(a) + Probes(b)
  {
    if b == [] {
      assert a + b == a;
    } else {
      var init := b[..|b| - 1];
      assert (a + b)[..|a + b| - 1] == a + init;
      ProbesAppend(a, init);
      Associative(Probes(a), Probes(init), [Probe(b[|b| - 1])]);
    }
  }

  /** `puts` is one upload per file of `files`, in order, each with the configured options. */
  ghost predicate UploadsOf(puts: seq<Request>, files: seq<LocalFile>, version: Option<string>,
                            usingVersion: bool, versionRelativePath: (string, Option<string>) -> string,
                            options: Options)
  {
    && |puts| == |files|
    && forall k :: 0 <= k < |files| ==>
         && puts[k].PutFileAsCall?
         && puts[k].path == UploadDir(files[k], version, usingVersion, versionRelativePath)
         && puts[k].source == files[k].pathname
         && puts[k].name == files[k].filename
         && puts[k].options == options
  }

  lemma UploadsSnoc(puts: seq<Request>, files: seq<LocalFile>, file: LocalFile, put: Request,
                    version: Option<string>, usingVersion: bool,
                    versionRelativePath: (string, Option<string>) -> string, options: Options)
    requires UploadsOf(puts, files, version, usingVersion, versionRelativePath, options)
    requires put.PutFileAsCall?
    requires put == PutFileAsCall(UploadDir(file, version, usingVersion, versionRelativePath),
                                  file.pathname, file.filename, options, put.ok)
    ensures UploadsOf(puts + [put], files + [file], version, usingVersion, versionRelativePath, options)
  {
  }

  ghost predicate AllUploads(puts: seq<Request>) {
    forall k :: 0 <= k < |puts| ==> puts[k].PutFileAsCall?
  }

  /** The line printed after one upload. */
  function UploadLine(path: string, name: string, ok: bool): Line {
    if ok then Uploaded(path, name) else UploadFailed(path, name)
  }

  /** One "deleted" line per path, in order. */
  function DeletedLines(paths: seq<string>): seq<Line> {
    if paths == [] then []
    else DeletedLines(paths[..|paths| - 1]) + [Deleted(paths[|paths| - 1])]
  }

  /** The lines printed in answer to one request. */
  function Reported(r: Request): seq<Line> {
    match r
    case AllFilesCall(_) => []
    case SizeCall(_) => []
    case GetCall(_) => []
    case PutFileAsCall(path, _, name, _, ok) => [UploadLine(path, name, ok)]
    case DeleteCall(paths, ok) => if ok then DeletedLines(paths) else []
  }

  /** The console output that answers a sequence of requests. */
  function Report(sent: seq<Request>): seq<Line> {
    if sent == [] then [] else Report(sent[..|sent| - 1]) + Reported(sent[|sent| - 1])
  }

  lemma ReportSnoc(sent: seq<Request>, r: Request)
    ensures Report(sent + [r]) == Report(sent) + Reported(r)
  {
    assert (sent + [r])[..|sent|] == sent;
  }

  lemma DeletedLinesSnoc(paths: seq<string>, p: string)
    ensures DeletedLines(paths + [p]) == DeletedLines(paths) + [Deleted(p)]
  {
    assert (paths + [p])[..|paths|] == paths;
  }

  /** One "deleted" line per path, naming that path, in list order. */
  lemma {:induction false} DeletedLinesAt(paths: seq<string>)
    ensures |DeletedLines(paths)| == |paths|
    ensures forall k :: 0 <= k < |paths| ==> DeletedLines(paths)[k] == Deleted(paths[k])
  {
    if paths != [] {
      DeletedLinesAt(paths[..|paths| - 1]);
    }
  }

  /** Uploads alone print exactly one line each: an error exactly when the upload failed. */
  lemma {:induction false} ReportOfUploads(puts: seq<Request>)
    requires AllUploads(puts)
    ensures |Report(puts)| == |puts|
    ensures forall k :: 0 <= k < |puts| ==>
              Report(puts)[k] == UploadLine(puts[k].path, puts[k].name, puts[k].ok)
  {
    if puts != [] {
      ReportOfUploads(puts[..|puts| - 1]);
    }
  }

  /**
    Regrouping a concatenation. The solver knows this law but finds the
    instance a loop step needs only slowly; naming it keeps those steps cheap.
   */
  lemma Associative<T>(a: seq<T>, b: seq<T>, c: seq<T>)
    ensures (a + b) + c == a + (b + c)
  {
  }

  /** Where the three parts of `a + b + c` sit. */
  lemma Parts<T>(a: seq<T>, b: seq<T>, c: seq<T>)
    ensures var x := a + b + c;
            && |x| == |a| + |b| + |c|
            && x[..|a|] == a
            && x[|a| + |b|..] == c
            && forall k :: 0 <= k < |b| ==> x[|a| + k] == b[k]
  {
  }

  /** Where the parts of a run sit in the disk's request history. */
  lemma SplitRun(before: seq<Request>, listing: Request, probes: seq<Request>, puts: seq<Request>, del: Request,
                 after: seq<Request>)
    requires after == before + [listing] + probes + puts + [del]
    ensures var s := |before| + 1 + |probes|;
            && |after| == s + |puts| + 1
            && after[..|before|] == before && after[|before|] == listing
            && after[|before| + 1..s] == probes
            && after[s..s + |puts|] == puts
            && after[s + |puts|] == del
  {
    assert after == before + ([listing] + (probes + (puts + [del])));
  }

  /**
    One run that syncs `toSync` and deletes `toDelete` in `version`: the disk
    received one listing of the version directory, then the reads `probes` of
    the filter, then one upload per file to sync, in order, then one batch
    delete of the entries to delete. The console
    shows one line per upload saying whether it succeeded, then one line per
    deleted entry if and only if the batch delete succeeded.
   */
  ghost predicate RunOf(requestsBefore: seq<Request>, requestsAfter: seq<Request>,
                        linesBefore: seq<Line>, linesAfter: seq<Line>, version: Option<string>,
                        probes: seq<Request>, toSync: seq<LocalFile>, toDelete: seq<string>, usingVersion: bool,
                        versionRelativePath: (string, Option<string>) -> string, options: Options)
  {
    var n, s := |requestsBefore|, |requestsBefore| + 1 + |probes|;
    && |requestsAfter| == s + |toSync| + 1
    && var puts, del, m := requestsAfter[s..s + |toSync|], requestsAfter[s + |toSync|], |linesBefore|;
       && requestsAfter[..n] == requestsBefore
       && requestsAfter[n] == AllFilesCall(version)
       && requestsAfter[n + 1..s] == probes
       && UploadsOf(puts, toSync, version, usingVersion, versionRelativePath, options)
       && del.DeleteCall?
       && del.paths == toDelete
       && |linesAfter| == m + |toSync| + (if del.ok then |toDelete| else 0)
       && linesAfter[..m] == linesBefore
       && (forall k :: 0 <= k < |toSync| ==>
             linesAfter[m + k] == UploadLine(UploadDir(toSync[k], version, usingVersion, versionRelativePath),
                                             toSync[k].filename, puts[k].ok))
       && (forall k :: 0 <= k < |linesAfter| - m - |toSync| ==>
             linesAfter[m + |toSync| + k] == Deleted(toDelete[k]))
  }

  /**
    One run against a disk that stores `tree` and `objects`: both lists are
    computed from the single listing of the version directory, and the reads
    are those of the filter's checks, file by file in local order.
   */
  ghost predicate SyncRun(requestsBefore: seq<Request>, requestsAfter: seq<Request>,
                          linesBefore: seq<Line>, linesAfter: seq<Line>,
                          tree: seq<string>, objects: Objects, localFiles: seq<LocalFile>,
                          version: Option<string>, usingVersion: bool,
                          versionRelativePath: (string, Option<string>) -> string,
                          options: Options, md5: Bytes -> Digest)
    requires ListedIn(tree, objects)
  {
    var listing := Listing(tree, version);
    RunOf(requestsBefore, requestsAfter, linesBefore, linesAfter, version,
          Probes(SyncReads(listing, localFiles, version, objects, md5)),
          FilesToSync(listing, localFiles, version, objects, md5), FilesToDelete(listing, localFiles, version),
          usingVersion, versionRelativePath, options)
  }

  /** A run is the listing, the reads, the uploads and the delete, in that order, with their report. */
  lemma RunFrom(requestsBefore: seq<Request>, probes: seq<Request>, puts: seq<Request>, del: Request,
                requestsAfter: seq<Request>, linesBefore: seq<Line>, linesAfter: seq<Line>, version: Option<string>,
                toSync: seq<LocalFile>, toDelete: seq<string>, usingVersion: bool,
                versionRelativePath: (string, Option<string>) -> string, options: Options)
    requires requestsAfter == requestsBefore + [AllFilesCall(version)] + probes + puts + [del]
    requires UploadsOf(puts, toSync, version, usingVersion, versionRelativePath, options)
    requires del.DeleteCall? && del.paths == toDelete
    requires linesAfter == linesBefore + Report(puts) + Reported(del)
    ensures RunOf(requestsBefore, requestsAfter, linesBefore, linesAfter, version, probes, toSync, toDelete,
                  usingVersion, versionRelativePath, options)
  {
    SplitRun(requestsBefore, AllFilesCall(version), probes, puts, del, requestsAfter);
    LinesOfRun(puts, del, toSync, toDelete, linesBefore, linesAfter, version, usingVersion, versionRelativePath, options);
  }


  /** The upload part of the output after the listing: one line per upload of `toSync`. */
  lemma UploadLinesOfRun(puts: seq<Request>, del: Request, toSync: seq<LocalFile>,
                         linesBefore: seq<Line>, linesAfter: seq<Line>,
                         version: Option<string>, usingVersion: bool,
                         versionRelativePath: (string, Option<string>) -> string, options: Options)
    requires UploadsOf(puts, toSync, version, usingVersion, versionRelativePath, options)
    requires linesAfter == linesBefore + Report(puts) + Reported(del)
    ensures var m := |linesBefore|;
            && |linesAfter| == m + |toSync| + |Reported(del)|
            && linesAfter[..m] == linesBefore
            && linesAfter[m + |toSync|..] == Reported(del)
            && (forall k :: 0 <= k < |toSync| ==>
                  linesAfter[m + k] == UploadLine(UploadDir(toSync[k], version, usingVersion, versionRelativePath),
                                                  toSync[k].filename, puts[k].ok))
  {
    var m, ups := |linesBefore|, Report(puts);
    assert AllUploads(puts);
    ReportOfUploads(puts);
    Parts(linesBefore, ups, Reported(del));
    forall k | 0 <= k < |toSync|
      ensures linesAfter[m + k] == UploadLine(UploadDir(toSync[k], version, usingVersion, versionRelativePath),
                                              toSync[k].filename, puts[k].ok)
    {
      assert linesAfter[m + k] == ups[k];
      assert ups[k] == UploadLine(puts[k].path, puts[k].name, puts[k].ok);
      assert puts[k].path == UploadDir(toSync[k], version, usingVersion, versionRelativePath);
      assert puts[k].name == toSync[k].filename;
    }
  }

  /**
    The output after the listing: one line per upload of `toSync`, saying
    whether it succeeded, then one line per entry of `toDelete` if and only if
    the batch delete succeeded.
   */
  lemma LinesOfRun(puts: seq<Request>, del: Request, toSync: seq<LocalFile>, toDelete: seq<string>,
                   linesBefore: seq<Line>, linesAfter: seq<Line>,
                   version: Option<string>, usingVersion: bool,
                   versionRelativePath: (string, Option<string>) -> string, options: Options)
    requires UploadsOf(puts, toSync, version, usingVersion, versionRelativePath, options)
    requires del.DeleteCall? && del.paths == toDelete
    requires linesAfter == linesBefore + Report(puts) + Reported(del)
    ensures var m := |linesBefore|;
            && |linesAfter| == m + |toSync| + (if del.ok then |toDelete| else 0)
            && linesAfter[..m] == linesBefore
            && (forall k :: 0 <= k < |toSync| ==>
                  linesAfter[m + k] == UploadLine(UploadDir(toSync[k], version, usingVersion, versionRelativePath),
                                                  toSync[k].filename, puts[k].ok))
            && (forall k :: 0 <= k < |linesAfter| - m - |toSync| ==>
                  linesAfter[m + |toSync| + k] == Deleted(toDelete[k]))
  {
    var o, tail := |linesBefore| + |toSync|, Reported(del);
    UploadLinesOfRun(puts, del, toSync, linesBefore, linesAfter, version, usingVersion, versionRelativePath, options);
    DeletedLinesAt(toDelete);
    assert |tail| == if del.ok then |toDelete| else 0;
    forall k | 0 <= k < |linesAfter| - o
      ensures linesAfter[o + k] == Deleted(toDelete[k])
    {
      assert linesAfter[o + k] == linesAfter[o..][k] == tail[k];
    }
  }

  /** The message and channel of one upload's line. */
  lemma UploadLineText(path: string, name: string, ok: bool)
    ensures Text(UploadLine(path, name, ok))
            == (if ok then "Successfully uploaded: " else "Problem uploading: ") + path + "/" + name
    ensures IsError(UploadLine(path, name, ok)) <==> !ok
  {
  }

  /**
    The k-th line after the earlier output prints "Successfully uploaded: " or,
    on the error channel, "Problem uploading: ", then the k-th file's upload
    directory, "/" and its file name, as the k-th upload succeeded or failed.
   */
  lemma RunPrintsUpload(requestsBefore: seq<Request>, requestsAfter: seq<Request>,
                  linesBefore: seq<Line>, linesAfter: seq<Line>, version: Option<string>,
                  probes: seq<Request>, toSync: seq<LocalFile>, toDelete: seq<string>, usingVersion: bool,
                  versionRelativePath: (string, Option<string>) -> string, options: Options, k: int)
    requires RunOf(requestsBefore, requestsAfter, linesBefore, linesAfter, version, probes, toSync, toDelete,
                   usingVersion, versionRelativePath, options)
    requires 0 <= k < |toSync|
    ensures var ok, line := requestsAfter[|requestsBefore| + 1 + |probes| + k].ok, linesAfter[|linesBefore| + k];
            && Text(line)
               == (if ok then "Successfully uploaded: " else "Problem uploading: ")
                  + UploadDir(toSync[k], version, usingVersion, versionRelativePath) + "/" + toSync[k].filename
            && (IsError(line) <==> !ok)
  {
    var s := |requestsBefore| + 1 + |probes|;
    var puts := requestsAfter[s..s + |toSync|];
    assert requestsAfter[s + k] == puts[k];
    UploadLineText(UploadDir(toSync[k], version, usingVersion, versionRelativePath), toSync[k].filename, puts[k].ok);
  }

  /**
    After the upload lines, line k prints "Successfully deleted: " and the k-th
    entry to delete, never on the error channel.
   */
  lemma RunPrintsDeleted(requestsBefore: seq<Request>, requestsAfter: seq<Request>,
                  linesBefore: seq<Line>, linesAfter: seq<Line>, version: Option<string>,
                  probes: seq<Request>, toSync: seq<LocalFile>, toDelete: seq<string>, usingVersion: bool,
                  versionRelativePath: (string, Option<string>) -> string, options: Options, k: int)
    requires RunOf(requestsBefore, requestsAfter, linesBefore, linesAfter, version, probes, toSync, toDelete,
                   usingVersion, versionRelativePath, options)
    requires 0 <= k < |linesAfter| - |linesBefore| - |toSync|
    ensures var line := linesAfter[|linesBefore| + |toSync| + k];
            && Text(line) == "Successfully deleted: " + toDelete[k]
            && !IsError(line)
  {
  }

  /**
    Version "0" is falsy for the two filters but still names the listed
    directory: an identical copy stored at "0/a.js" is uploaded again and is
    also scheduled for deletion.
   */
  lemma ZeroVersionExample(md5: Bytes -> Digest, x: Bytes)
    ensures var f := LocalFile("a.js", "", "a.js", "/assets/a.js", |x|, x);
            var objects := map["0/a.js" := RemoteObject(|x|, x)];
            var listing := Listing(["0/a.js"], Some("0"));
            && listing == ["0/a.js"]
            && FilesToSync(listing, [f], Some("0"), objects, md5) == [f]
            && FilesToDelete(listing, [f], Some("0")) == ["0/a.js"]
  {
    assert InDirectory("0/a.js", Some("0"));
    assert Listing(["0/a.js"], Some("0")) == ["0/a.js"];
    assert "a.js" != "0/a.js";
  }

  /**
    The invariant of the filter loop after `i` files: `kept` are the files to
    sync among them, and the disk has received their reads after `base`.
   */
  ghost predicate FilterProgress(base: seq<Request>, requests: seq<Request>, kept: seq<LocalFile>, i: nat,
                                 listing: seq<string>, local: seq<LocalFile>, version: Option<string>,
                                 objects: Objects, md5: Bytes -> Digest)
    requires ListedIn(listing, objects)
  {
    && i <= |local|
    && kept + FilesToSync(listing, local[i..], version, objects, md5)
       == FilesToSync(listing, local, version, objects, md5)
    && requests == base + Probes(SyncReads(listing, local[..i], version, objects, md5))
  }

  /** One step of the filter loop: the file at `i` is kept exactly when its check says so, after its reads. */
  lemma FilterStep(base: seq<Request>, requests: seq<Request>, kept: seq<LocalFile>, i: nat,
                   listing: seq<string>, local: seq<LocalFile>, version: Option<string>,
                   objects: Objects, md5: Bytes -> Digest)
    requires ListedIn(listing, objects) && i < |local|
    requires FilterProgress(base, requests, kept, i, listing, local, version, objects, md5)
    ensures var v := Check(local[i], listing, objects, version, md5);
            FilterProgress(base, requests + Probes(v.diskReads), if v.upload then kept + [local[i]] else kept,
                           i + 1, listing, local, version, objects, md5)
  {
    var v := Check(local[i], listing, objects, version, md5);
    assert local[i..][0] == local[i];
    assert local[i..][1..] == local[i + 1..];
    var rest := FilesToSync(listing, local[i + 1..], version, objects, md5);
    if v.upload {
      assert FilesToSync(listing, local[i..], version, objects, md5) == [local[i]] + rest;
      assert (kept + [local[i]]) + rest == kept + ([local[i]] + rest);
    }
    var before := SyncReads(listing, local[..i], version, objects, md5);
    assert local[..i + 1][..i] == local[..i];
    ProbesAppend(before, v.diskReads);
    Associative(base, Probes(before), Probes(v.diskReads));
  }

  /**
    The invariant of the upload loop after `i` files: the disk has received
    their uploads `sent` after `baseRequests`, and the console shows one line
    per upload after `baseOutput`.
   */
  ghost predicate UploadProgress(baseRequests: seq<Request>, requests: seq<Request>,
                                 baseOutput: seq<Line>, output: seq<Line>, sent: seq<Request>,
                                 files: seq<LocalFile>, i: nat, version: Option<string>, usingVersion: bool,
                                 versionRelativePath: (string, Option<string>) -> string, options: Options)
  {
    && i <= |files|
    && requests == baseRequests + sent
    && UploadsOf(sent, files[..i], version, usingVersion, versionRelativePath, options)
    && output == baseOutput + Report(sent)
  }

  /** One step of the upload loop: the upload of file `i`, answered `ok`, and its line. */
  lemma UploadStep(baseRequests: seq<Request>, requests: seq<Request>,
                   baseOutput: seq<Line>, output: seq<Line>, sent: seq<Request>,
                   files: seq<LocalFile>, i: nat, version: Option<string>, usingVersion: bool,
                   versionRelativePath: (string, Option<string>) -> string, options: Options, ok: bool)
    requires i < |files|
    requires UploadProgress(baseRequests, requests, baseOutput, output, sent, files, i,
                            version, usingVersion, versionRelativePath, options)
    ensures var dir := UploadDir(files[i], version, usingVersion, versionRelativePath);
            var put := PutFileAsCall(dir, files[i].pathname, files[i].filename, options, ok);
            UploadProgress(baseRequests, requests + [put], baseOutput, output + [UploadLine(dir, files[i].filename, ok)],
                           sent + [put], files, i + 1, version, usingVersion, versionRelativePath, options)
  {
    var dir := UploadDir(files[i], version, usingVersion, versionRelativePath);
    var put := PutFileAsCall(dir, files[i].pathname, files[i].filename, options, ok);
    assert Reported(put) == [UploadLine(dir, files[i].filename, ok)];
    ReportSnoc(sent, put);
    Associative(baseOutput, Report(sent), Reported(put));
    Associative(baseRequests, sent, [put]);
    UploadsSnoc(sent, files[..i], files[i], put, version, usingVersion, versionRelativePath, options);
    assert files[..i + 1] == files[..i] + [files[i]];
  }

  // ---------------------------------------------------------------------------
  // The command
  // ---------------------------------------------------------------------------

  class SyncCommand {
    /** The configured disk name. */
    var filesystem: string
    var filesystemManager: FilesystemManager?
    /** Everything the command has printed. */
    var output: seq<Line>

    constructor ()
      ensures filesystem == "" && filesystemManager == null && output == []
    {
      filesystem := "";
      filesystemManager := null;
      output := [];
    }

    /**
      The command's entry point. `version` is the --version-path option;
      `usingVersion` and `versionRelativePath` stand for the command's and the
      finder's helpers that pick the upload directory. `resolved` is false when
      the configured disk does not exist: the framework raises an error there,
      after the two fields are set and before any request is sent.
     */
    method Handle(localFiles: seq<LocalFile>, manager: FilesystemManager, config: Config,
                  version: Option<string>, usingVersion: bool,
                  versionRelativePath: (string, Option<string>) -> string,
                  md5: Bytes -> Digest) returns (resolved: bool)
      requires config.disk in manager.disks ==> manager.disks[config.disk].Valid()
      modifies this, manager.disks.Values
      ensures filesystem == config.disk && filesystemManager == manager
      ensures resolved <==> config.disk in manager.disks
      ensures !resolved ==> output == old(output) && forall d :: d in manager.disks.Values ==> unchanged(d)
      ensures resolved ==>
        var disk := manager.disks[config.disk];
        SyncRun(old(disk.requests), disk.requests, old(output), output, disk.tree, disk.objects,
                   localFiles, version, usingVersion, versionRelativePath, config.options, md5)
      ensures resolved ==>
        forall d :: d in manager.disks.Values && d != manager.disks[config.disk] ==> unchanged(d)
    {
      filesystem := config.disk;
      filesystemManager := manager;
      if config.disk !in manager.disks {
        return false;
      }
      resolved := true;
      Synchronise(manager.disks[config.disk], localFiles, config.options, version, usingVersion,
                  versionRelativePath, md5);
    }

    /** The body of the command once the disk is resolved: list, diff, upload, delete. */
    method Synchronise(disk: Disk, localFiles: seq<LocalFile>, options: Options,
                       version: Option<string>, usingVersion: bool,
                       versionRelativePath: (string, Option<string>) -> string,
                       md5: Bytes -> Digest)
      requires disk.Valid()
      modifies this`output, disk`requests
      ensures SyncRun(old(disk.requests), disk.requests, old(output), output, disk.tree, disk.objects,
                      localFiles, version, usingVersion, versionRelativePath, options, md5)
    {
      var filesOnCdn := disk.AllFiles(version);
      var filesToDelete := FilesToDelete(filesOnCdn, localFiles, version);
      ghost var probes := Probes(SyncReads(filesOnCdn, localFiles, version, disk.objects, md5));
      var filesToSync := SelectFilesToSync(disk, filesOnCdn, localFiles, version, md5);

      ghost var puts := UploadAll(disk, filesToSync, version, usingVersion, versionRelativePath, options);
      ghost var printed := output;
      var deleted := disk.Delete(filesToDelete);
      ghost var del := DeleteCall(filesToDelete, deleted);
      if deleted {
        ReportDeleted(filesToDelete);
      }
      assert output == printed + Reported(del);
      RunFrom(old(disk.requests), probes, puts, del, disk.requests, old(output), output, version,
              filesToSync, filesToDelete, usingVersion, versionRelativePath, options);
    }

    /**
      The filter over the local files, run against the disk: each file's
      checks in turn, reading the remote size and contents only as far as the
      earlier checks leave the answer open.
     */
    method SelectFilesToSync(disk: Disk, listing: seq<string>, localFiles: seq<LocalFile>,
                             version: Option<string>, md5: Bytes -> Digest) returns (toSync: seq<LocalFile>)
      requires ListedIn(listing, disk.objects)
      modifies disk`requests
      ensures toSync == FilesToSync(listing, localFiles, version, disk.objects, md5)
      ensures disk.requests == old(disk.requests) + Probes(SyncReads(listing, localFiles, version, disk.objects, md5))
    {
      toSync := [];
      var i := 0;
      assert localFiles[0..] == localFiles;
      while i < |localFiles|
        invariant FilterProgress(old(disk.requests), disk.requests, toSync, i, listing, localFiles, version,
                                 disk.objects, md5)
      {
        FilterStep(old(disk.requests), disk.requests, toSync, i, listing, localFiles, version, disk.objects, md5);
        var upload := CheckFile(disk, listing, localFiles[i], version, md5);
        if upload {
          toSync := toSync + [localFiles[i]];
        }
        i := i + 1;
      }
      assert localFiles[..i] == localFiles;
      assert localFiles[i..] == [];
    }

    /** The closure of the filter for one file, with the disk reads it makes. */
    method CheckFile(disk: Disk, listing: seq<string>, file: LocalFile, version: Option<string>,
                     md5: Bytes -> Digest) returns (upload: bool)
      requires ListedIn(listing, disk.objects)
      modifies disk`requests
      ensures upload == Check(file, listing, disk.objects, version, md5).upload
      ensures disk.requests
              == old(disk.requests) + Probes(Check(file, listing, disk.objects, version, md5).diskReads)
    {
      var key := Prefixed(version, file.relativePathname);
      if key !in listing {
        return true;
      }
      var size := disk.Size(key);
      assert [SizeOf(key)][..0] == [];
      assert Probes([SizeOf(key)]) == [SizeCall(key)];
      if size != file.size {
        return true;
      }
      var contents := disk.Get(key);
      upload := md5(contents) != md5(file.contents);
      assert [SizeOf(key), ContentsOf(key)][..1] == [SizeOf(key)];
      assert Probes([SizeOf(key), ContentsOf(key)]) == [SizeCall(key)] + [GetCall(key)];
    }

    /** The upload loop: one upload per file, in order, whatever the earlier uploads answered. */
    method UploadAll(disk: Disk, files: seq<LocalFile>, version: Option<string>, usingVersion: bool,
                     versionRelativePath: (string, Option<string>) -> string, options: Options)
      returns (ghost sent: seq<Request>)
      modifies this`output, disk`requests
      ensures disk.requests == old(disk.requests) + sent
      ensures UploadsOf(sent, files, version, usingVersion, versionRelativePath, options)
      ensures output == old(output) + Report(sent)
    {
      sent := [];
      var i := 0;
      while i < |files|
        invariant UploadProgress(old(disk.requests), disk.requests, old(output), output, sent, files, i,
                                 version, usingVersion, versionRelativePath, options)
      {
        var file := files[i];
        var dir := UploadDir(file, version, usingVersion, versionRelativePath);
        ghost var requests, printed := disk.requests, output;
        var ok := disk.PutFileAs(dir, file, file.filename, options);
        if !ok {
          output := output + [UploadFailed(dir, file.filename)];
        } else {
          output := output + [Uploaded(dir, file.filename)];
        }
        UploadStep(old(disk.requests), requests, old(output), printed, sent, files, i,
                   version, usingVersion, versionRelativePath, options, ok);
        sent := sent + [PutFileAsCall(dir, file.pathname, file.filename, options, ok)];
        i := i + 1;
      }
      assert files[..i] == files;
    }

    /** The loop run after a successful delete: one line per deleted path, in order. */
    method ReportDeleted(paths: seq<string>)
      modifies this`output
      ensures output == old(output) + DeletedLines(paths)
    {
      var j := 0;
      while j < |paths|
        invariant 0 <= j <= |paths|
        invariant output == old(output) + DeletedLines(paths[..j])
      {
        DeletedLinesSnoc(paths[..j], paths[j]);
        assert paths[..j + 1] == paths[..j] + [paths[j]];
        output := output + [Deleted(paths[j])];
        j := j + 1;
      }
      assert paths[..j] == paths;
    }
  }
}
