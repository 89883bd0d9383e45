/**
  The remote-versus-local diff of the asset synchroniser: which local assets
  must be uploaded (`FilesToSync`) and which remote objects must be deleted
  (`FilesToDelete`), optionally under a version prefix. Both are filters: they
  read the remote disk but never change it.
 */
module SyncDiff {

  datatype Option<T> = None | Some(value: T)

  type Bytes = seq<bv8>

  /** The printable checksum of a byte string (an MD5 hex digest in the source). */
  type Digest = string

  /** A local asset as the finder reports it. */
  datatype LocalFile = LocalFile(
    relativePathname: string,  // below the asset root, file name included: "js/app.js"
    relativePath: string,      // the directory part only: "js"
    filename: string,          // "app.js"
    pathname: string,          // where the file lives on the local machine
    size: int,
    contents: Bytes)

  /** What the remote disk holds under one path. */
  datatype RemoteObject = RemoteObject(size: int, contents: Bytes)

  type Objects = map<string, RemoteObject>

  /** Every path of a listing can be asked for its size and contents. */
  ghost predicate ListedIn(listing: seq<string>, objects: Objects) {
    forall p :: p in listing ==> p in objects
  }

  /** PHP truthiness of the optional version string: null, "" and "0" are false. */
  predicate UsesPrefix(version: Option<string>) {
    version.Some? && version.value != "" && version.value != "0"
  }

  /** The remote key a local pathname is compared with: "v/pathname" under version v. */
  function Prefixed(version: Option<string>, pathname: string): string {
    if UsesPrefix(version) then version.value + "/" + pathname else pathname
  }

  /** Prefixing keeps distinct pathnames distinct, so two local files never share a key. */
  lemma PrefixedInjective(version: Option<string>, a: string, b: string)
    ensures Prefixed(version, a) == Prefixed(version, b) <==> a == b
  {
    if UsesPrefix(version) && Prefixed(version, a) == Prefixed(version, b) {
      var n := |version.value| + 1;
      assert a == Prefixed(version, a)[n..];
      assert b == Prefixed(version, b)[n..];
    }
  }

  /** `a` is an order-preserving subsequence of `b`. */
  predicate IsSubsequence<T(==)>(a: seq<T>, b: seq<T>) {
    if a == [] then true
    else if b == [] then false
    else (a[0] == b[0] && IsSubsequence(a[1..], b[1..])) || IsSubsequence(a, b[1..])
  }

  // ---------------------------------------------------------------------------
  // filesToSync
  // ---------------------------------------------------------------------------

  /** A read the filter makes on the remote disk. */
  datatype Read = SizeOf(path: string) | ContentsOf(path: string)

  /** The filter's answer for one local file, with the remote reads it made. */
  datatype Verdict = Verdict(upload: bool, diskReads: seq<Read>)

  /**
    The closure of filesToSync for one local file: absent from the listing,
    then a size mismatch, then a checksum mismatch, each check short-circuiting
    the later ones.
   */
  function Check(f: LocalFile, listing: seq<string>, objects: Objects,
                 version: Option<string>, md5: Bytes -> Digest): Verdict
    requires ListedIn(listing, objects)
  {
    var key := Prefixed(version, f.relativePathname);
    if key !in listing then Verdict(true, [])
    else if objects[key].size != f.size then Verdict(true, [SizeOf(key)])
    else Verdict(md5(objects[key].contents) != md5(f.contents), [SizeOf(key), ContentsOf(key)])
  }

  /**
    A check reads at most twice, only the file's own listed key, and a file it
    keeps back has had both its size and its contents read.
   */
  lemma CheckReads(f: LocalFile, listing: seq<string>, objects: Objects,
                   version: Option<string>, md5: Bytes -> Digest)
    requires ListedIn(listing, objects)
    ensures var key, r := Prefixed(version, f.relativePathname), Check(f, listing, objects, version, md5);
            && |r.diskReads| <= 2
            && (forall x :: x in r.diskReads ==> x.path == key && key in listing)
            && (!r.upload ==> r.diskReads == [SizeOf(key), ContentsOf(key)])
  {
  }

  /** The local files to upload, in their local order. */
  function FilesToSync(listing: seq<string>, local: seq<LocalFile>, version: Option<string>,
                       objects: Objects, md5: Bytes -> Digest): (r: seq<LocalFile>)
    requires ListedIn(listing, objects)
    ensures IsSubsequence(r, local)
    ensures |r| <= |local|
  {
    if local == [] then []
    else
      var rest := FilesToSync(listing, local[1..], version, objects, md5);
      if Check(local[0], listing, objects, version, md5).upload then [local[0]] + rest else rest
  }

  /** The remote reads the filter makes, in local order: for each file, those of its own check. */
  function SyncReads(listing: seq<string>, local: seq<LocalFile>, version: Option<string>,
                     objects: Objects, md5: Bytes -> Digest): seq<Read>
    requires ListedIn(listing, objects)
  {
    if local == [] then []
    else
      SyncReads(listing, local[..|local| - 1], version, objects, md5)
      + Check(local[|local| - 1], listing, objects, version, md5).diskReads
  }

  /** The filter reads at most twice per file, and only listed keys of local files. */
  lemma {:induction false} SyncReadsBounds(listing: seq<string>, local: seq<LocalFile>, version: Option<string>,
                                           objects: Objects, md5: Bytes -> Digest)
    requires ListedIn(listing, objects)
    ensures var r := SyncReads(listing, local, version, objects, md5);
            && |r| <= 2 * |local|
            && (forall x :: x in r ==> x.path in listing)
            && (forall x :: x in r ==> exists f :: f in local && x.path == Prefixed(version, f.relativePathname))
  {
    if local != [] {
      var init, last := local[..|local| - 1], local[|local| - 1];
      SyncReadsBounds(listing, init, version, objects, md5);
      CheckReads(last, listing, objects, version, md5);
      assert forall f :: f in init ==> f in local;
      assert last in local;
    }
  }

  /** A file is scheduled exactly when its own check says so. */
  lemma {:induction false} SyncMembership(f: LocalFile, listing: seq<string>, local: seq<LocalFile>,
                                          version: Option<string>, objects: Objects, md5: Bytes -> Digest)
    requires ListedIn(listing, objects)
    ensures f in FilesToSync(listing, local, version, objects, md5)
            <==> f in local && Check(f, listing, objects, version, md5).upload
  {
    if local != [] {
      SyncMembership(f, listing, local[1..], version, objects, md5);
      assert local == [local[0]] + local[1..];
    }
  }

  /** Every occurrence of a scheduled file is kept, every occurrence of another is dropped. */
  lemma {:induction false} SyncMultiplicity(f: LocalFile, listing: seq<string>, local: seq<LocalFile>,
                                            version: Option<string>, objects: Objects, md5: Bytes -> Digest)
    requires ListedIn(listing, objects)
    ensures multiset(FilesToSync(listing, local, version, objects, md5))[f]
            == if Check(f, listing, objects, version, md5).upload then multiset(local)[f] else 0
  {
    if local != [] {
      var head, tail := local[0], local[1..];
      var rest := FilesToSync(listing, tail, version, objects, md5);
      SyncMultiplicity(f, listing, tail, version, objects, md5);
      assert local == [head] + tail;
      assert multiset(local) == multiset([head]) + multiset(tail);
      var kept := Check(head, listing, objects, version, md5).upload;
      assert FilesToSync(listing, local, version, objects, md5) == if kept then [head] + rest else rest;
      assert multiset([head] + rest) == multiset([head]) + multiset(rest);
      if f != head {
        assert multiset([head])[f] == 0;
      }
    }
  }

  /** The three upload conditions, in source order. */
  lemma SyncedIffChanged(f: LocalFile, listing: seq<string>, local: seq<LocalFile>,
                         version: Option<string>, objects: Objects, md5: Bytes -> Digest)
    requires ListedIn(listing, objects)
    ensures var key := Prefixed(version, f.relativePathname);
            f in FilesToSync(listing, local, version, objects, md5)
            <==> f in local && (key !in listing
                                || objects[key].size != f.size
                                || md5(objects[key].contents) != md5(f.contents))
  {
    SyncMembership(f, listing, local, version, objects, md5);
  }

  /** A file missing remotely is uploaded, and the disk is not read for it. */
  lemma AbsentIsSynced(f: LocalFile, listing: seq<string>, local: seq<LocalFile>,
                       version: Option<string>, objects: Objects, md5: Bytes -> Digest)
    requires ListedIn(listing, objects)
    requires f in local && Prefixed(version, f.relativePathname) !in listing
    ensures f in FilesToSync(listing, local, version, objects, md5)
    ensures Check(f, listing, objects, version, md5).diskReads == []
  {
    SyncMembership(f, listing, local, version, objects, md5);
  }

  /** A size mismatch uploads the file; only the remote size is read, never its contents. */
  lemma SizeMismatchIsSynced(f: LocalFile, listing: seq<string>, local: seq<LocalFile>,
                             version: Option<string>, objects: Objects, md5: Bytes -> Digest)
    requires ListedIn(listing, objects)
    requires var key := Prefixed(version, f.relativePathname);
             f in local && key in listing && objects[key].size != f.size
    ensures f in FilesToSync(listing, local, version, objects, md5)
    ensures Check(f, listing, objects, version, md5).diskReads == [SizeOf(Prefixed(version, f.relativePathname))]
  {
    SyncMembership(f, listing, local, version, objects, md5);
  }

  /** With equal sizes the checksums alone decide; both size and contents are read. */
  lemma EqualSizeSyncedIffChecksumDiffers(f: LocalFile, listing: seq<string>, local: seq<LocalFile>,
                                          version: Option<string>, objects: Objects, md5: Bytes -> Digest)
    requires ListedIn(listing, objects)
    requires var key := Prefixed(version, f.relativePathname);
             f in local && key in listing && objects[key].size == f.size
    ensures var key := Prefixed(version, f.relativePathname);
            && (f in FilesToSync(listing, local, version, objects, md5)
                <==> md5(objects[key].contents) != md5(f.contents))
            && Check(f, listing, objects, version, md5).diskReads == [SizeOf(key), ContentsOf(key)]
  {
    SyncMembership(f, listing, local, version, objects, md5);
  }

  /** For a file missing remotely the verdict does not depend on anything the disk stores. */
  lemma AbsentCheckIgnoresObjects(f: LocalFile, listing: seq<string>, objects: Objects, other: Objects,
                                  version: Option<string>, md5: Bytes -> Digest)
    requires ListedIn(listing, objects) && ListedIn(listing, other)
    requires Prefixed(version, f.relativePathname) !in listing
    ensures Check(f, listing, objects, version, md5) == Check(f, listing, other, version, md5)
  {
  }

  /** For a size mismatch the verdict depends on the remote size only, never on the contents. */
  lemma SizeMismatchCheckIgnoresContents(f: LocalFile, listing: seq<string>, objects: Objects, other: Objects,
                                         version: Option<string>, md5: Bytes -> Digest)
    requires ListedIn(listing, objects) && ListedIn(listing, other)
    requires var key := Prefixed(version, f.relativePathname);
             key in listing && objects[key].size == other[key].size != f.size
    ensures Check(f, listing, objects, version, md5) == Check(f, listing, other, version, md5)
  {
  }

  /** With equal sizes the verdict depends on the remote checksum only. */
  lemma EqualSizeCheckIgnoresAllButChecksum(f: LocalFile, listing: seq<string>, objects: Objects, other: Objects,
                                            version: Option<string>, md5: Bytes -> Digest)
    requires ListedIn(listing, objects) && ListedIn(listing, other)
    requires var key := Prefixed(version, f.relativePathname);
             && key in listing && objects[key].size == other[key].size == f.size
             && md5(objects[key].contents) == md5(other[key].contents)
    ensures Check(f, listing, objects, version, md5).upload == Check(f, listing, other, version, md5).upload
  {
  }

  /** A remote copy identical to the local file is never uploaded again, whatever the checksum. */
  lemma IdenticalCopyNotSynced(f: LocalFile, listing: seq<string>, local: seq<LocalFile>,
                               version: Option<string>, objects: Objects, md5: Bytes -> Digest)
    requires ListedIn(listing, objects)
    requires var key := Prefixed(version, f.relativePathname);
             key in listing && objects[key] == RemoteObject(f.size, f.contents)
    ensures f !in FilesToSync(listing, local, version, objects, md5)
  {
    SyncMembership(f, listing, local, version, objects, md5);
  }

  // ---------------------------------------------------------------------------
  // filesToDelete
  // ---------------------------------------------------------------------------

  /** The relative pathnames of the local files, in order. */
  function Pathnames(local: seq<LocalFile>): (r: seq<string>)
    ensures |r| == |local|
    ensures forall k :: 0 <= k < |local| ==> r[k] == local[k].relativePathname
  {
    if local == [] then [] else [local[0].relativePathname] + Pathnames(local[1..])
  }

  /** The `array_map` inside the closure: every pathname prefixed once, when a version is used. */
  function PrefixAll(paths: seq<string>, version: Option<string>): (r: seq<string>)
    ensures |r| == |paths|
    ensures forall k :: 0 <= k < |paths| ==> r[k] == Prefixed(version, paths[k])
  {
    if !UsesPrefix(version) then paths
    else if paths == [] then []
    else [Prefixed(version, paths[0])] + PrefixAll(paths[1..], version)
  }

  /**
    The filter over the remote entries. `captured` is the closure's own copy of
    the local pathnames: every entry prefixes that same copy, so prefixes never
    pile up from one entry to the next.
   */
  function DeleteFilter(entries: seq<string>, captured: seq<string>, version: Option<string>): (r: seq<string>)
    ensures IsSubsequence(r, entries)
    ensures |r| <= |entries|
  {
    if entries == [] then []
    else
      var rest := DeleteFilter(entries[1..], captured, version);
      if entries[0] !in PrefixAll(captured, version) then [entries[0]] + rest else rest
  }

  /** The remote entries to delete, in listing order. */
  function FilesToDelete(listing: seq<string>, local: seq<LocalFile>, version: Option<string>): (r: seq<string>)
    ensures IsSubsequence(r, listing)
  {
    DeleteFilter(listing, Pathnames(local), version)
  }

  /** An entry is kept by the closure exactly when no local file maps onto it. */
  lemma KeptEntryMatchesNoLocal(x: string, local: seq<LocalFile>, version: Option<string>)
    ensures x !in PrefixAll(Pathnames(local), version)
            <==> forall f :: f in local ==> Prefixed(version, f.relativePathname) != x
  {
    var ps := PrefixAll(Pathnames(local), version);
    if x in ps {
      var k :| 0 <= k < |ps| && ps[k] == x;
      assert local[k] in local;
    }
    forall f | f in local ensures Prefixed(version, f.relativePathname) in ps {
      var k :| 0 <= k < |local| && local[k] == f;
      assert ps[k] == Prefixed(version, f.relativePathname);
    }
  }

  lemma {:induction false} DeleteFilterMembership(x: string, entries: seq<string>, captured: seq<string>,
                                                  version: Option<string>)
    ensures x in DeleteFilter(entries, captured, version)
            <==> x in entries && x !in PrefixAll(captured, version)
  {
    if entries != [] {
      DeleteFilterMembership(x, entries[1..], captured, version);
      assert entries == [entries[0]] + entries[1..];
    }
  }

  /** A remote entry is deleted iff it equals no prefixed local pathname. */
  lemma DeleteMembership(x: string, listing: seq<string>, local: seq<LocalFile>, version: Option<string>)
    ensures x in FilesToDelete(listing, local, version)
            <==> x in listing && forall f :: f in local ==> Prefixed(version, f.relativePathname) != x
  {
    DeleteFilterMembership(x, listing, Pathnames(local), version);
    KeptEntryMatchesNoLocal(x, local, version);
  }

  lemma {:induction false} DeleteFilterMultiplicity(x: string, entries: seq<string>, captured: seq<string>,
                                                    version: Option<string>)
    ensures multiset(DeleteFilter(entries, captured, version))[x]
            == if x in PrefixAll(captured, version) then 0 else multiset(entries)[x]
  {
    if entries != [] {
      var head, rest := entries[0], DeleteFilter(entries[1..], captured, version);
      DeleteFilterMultiplicity(x, entries[1..], captured, version);
      assert entries == [head] + entries[1..];
      assert multiset(entries)[x] == multiset([head])[x] + multiset(entries[1..])[x];
      if head !in PrefixAll(captured, version) {
        assert DeleteFilter(entries, captured, version) == [head] + rest;
        assert multiset([head] + rest)[x] == multiset([head])[x] + multiset(rest)[x];
      }
      assert x != head ==> multiset([head])[x] == 0;
    }
  }

  /** Every occurrence of an unmatched entry is kept, every occurrence of a matched one dropped. */
  lemma DeleteMultiplicity(x: string, listing: seq<string>, local: seq<LocalFile>, version: Option<string>)
    ensures multiset(FilesToDelete(listing, local, version))[x]
            == if exists f :: f in local && Prefixed(version, f.relativePathname) == x
               then 0 else multiset(listing)[x]
  {
    DeleteFilterMultiplicity(x, listing, Pathnames(local), version);
    KeptEntryMatchesNoLocal(x, local, version);
  }

  lemma {:induction false} NothingCapturedKeepsAll(entries: seq<string>, version: Option<string>)
    ensures DeleteFilter(entries, [], version) == entries
  {
    if entries != [] {
      NothingCapturedKeepsAll(entries[1..], version);
    }
  }

  /** With no local files the whole remote listing is scheduled for deletion. */
  lemma NoLocalDeletesAll(listing: seq<string>, version: Option<string>)
    ensures FilesToDelete(listing, [], version) == listing
  {
    NothingCapturedKeepsAll(listing, version);
  }

  /** No prefixed local pathname is ever scheduled for deletion. */
  lemma DeleteDisjointFromLocal(f: LocalFile, listing: seq<string>, local: seq<LocalFile>, version: Option<string>)
    requires f in local
    ensures Prefixed(version, f.relativePathname) !in FilesToDelete(listing, local, version)
  {
    DeleteMembership(Prefixed(version, f.relativePathname), listing, local, version);
  }

  /** A local file that is not uploaded has a remote copy, and that copy is not deleted. */
  lemma SkippedFileKeepsRemoteCopy(f: LocalFile, listing: seq<string>, local: seq<LocalFile>,
                                   version: Option<string>, objects: Objects, md5: Bytes -> Digest)
    requires ListedIn(listing, objects)
    requires f in local && f !in FilesToSync(listing, local, version, objects, md5)
    ensures Prefixed(version, f.relativePathname) in listing
    ensures Prefixed(version, f.relativePathname) !in FilesToDelete(listing, local, version)
  {
    SyncMembership(f, listing, local, version, objects, md5);
    DeleteDisjointFromLocal(f, listing, local, version);
  }

  /** Every remote entry is either deleted or is the key of some local file. */
  lemma EveryEntryDeletedOrMatched(x: string, listing: seq<string>, local: seq<LocalFile>, version: Option<string>)
    requires x in listing
    ensures x in FilesToDelete(listing, local, version)
            || exists f :: f in local && Prefixed(version, f.relativePathname) == x
  {
    DeleteMembership(x, listing, local, version);
  }

  // ---------------------------------------------------------------------------
  // Worked examples
  // ---------------------------------------------------------------------------

  /** Same name and size, different checksum: the file is uploaded. */
  lemma ChecksumMismatchExample(md5: Bytes -> Digest, x: Bytes, y: Bytes)
    requires md5(x) != md5(y)
    ensures var a := LocalFile("a", "", "a", "/assets/a", 10, x);
            FilesToSync(["a"], [a], None, map["a" := RemoteObject(10, y)], md5) == [a]
  {
  }

  /** Under version "v1" an identical remote copy at "v1/js/app.js" is not uploaded again. */
  lemma VersionedUnchangedExample(md5: Bytes -> Digest, x: Bytes)
    ensures var app := LocalFile("js/app.js", "js", "app.js", "/assets/js/app.js", |x|, x);
            FilesToSync(["v1/js/app.js"], [app], Some("v1"),
                        map["v1/js/app.js" := RemoteObject(|x|, x)], md5) == []
  {
    var app := LocalFile("js/app.js", "js", "app.js", "/assets/js/app.js", |x|, x);
    assert Prefixed(Some("v1"), app.relativePathname) == "v1/js/app.js";
  }

  /**
    Under version "v" both entries match their local file: the second entry is
    compared with "v/b.js", not with a twice-prefixed "v/v/b.js".
   */
  lemma PrefixNotAccumulatedExample(x: Bytes)
    ensures var a := LocalFile("a.js", "", "a.js", "/assets/a.js", |x|, x);
            var b := LocalFile("b.js", "", "b.js", "/assets/b.js", |x|, x);
            FilesToDelete(["v/a.js", "v/b.js"], [a, b], Some("v")) == []
  {
    var a := LocalFile("a.js", "", "a.js", "/assets/a.js", |x|, x);
    var b := LocalFile("b.js", "", "b.js", "/assets/b.js", |x|, x);
    var ps := PrefixAll(Pathnames([a, b]), Some("v"));
    assert ps[0] == "v/a.js" && ps[1] == "v/b.js";
    var r := FilesToDelete(["v/a.js", "v/b.js"], [a, b], Some("v"));
    if r != [] {
      DeleteFilterMembership(r[0], ["v/a.js", "v/b.js"], Pathnames([a, b]), Some("v"));
      assert false;
    }
  }

  /** A remote file with no local counterpart is deleted. */
  lemma StaleRemoteExample()
    ensures FilesToDelete(["old.js"], [], None) == ["old.js"]
  {
  }
}
