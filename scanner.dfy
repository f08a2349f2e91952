/** Directory scanner: lists the image files directly inside a directory,
    in the order the listing yields them, and prepares the OLD and NEW
    lists for pairing. */
module Scanner {
  import opened Common

  /** What a path names on disk: a regular file, a directory with its
      listing (in the order the OS yields it), or something else that
      exists (a socket, a device). */
  datatype Node = RegularFile | Directory(entries: seq<Entry>) | Special

  datatype Entry = Entry(name: string, node: Node)

  datatype ScanError = NotFound(dir: string) | NotADirectory(dir: string)

  datatype ScanWarning = OldEmpty | NewEmpty | NewShort(newCount: nat, oldCount: nat)

  /** The default allow-list: `.jpeg` is not in it. */
  const DefaultExts: seq<string> := [".jpg", ".png"]

  /** The path `dir / name`. */
  function Join(dir: string, name: string): string { dir + "/" + name }

  /** An entry kept by the scan: a regular file whose lower-cased suffix
      is one of `exts` (compared as given). */
  predicate Eligible(e: Entry, exts: seq<string>) {
    e.node.RegularFile? && Lower(Suffix(e.name)) in exts
  }

  /** The eligible entries of a listing, as paths under `dir`, in listing order. */
  function Images(dir: string, entries: seq<Entry>, exts: seq<string>): seq<Path>
  {
    if entries == [] then []
    else
      var last := entries[|entries| - 1];
      Images(dir, entries[..|entries| - 1], exts)
        + (if Eligible(last, exts) then [Path(dir, last.name)] else [])
  }

  /** list_images_raw: the existence check comes before the directory check;
      the listing is filtered without descending into sub-directories. */
  method ListImagesRaw(dir: string, at: Option<Node>, exts: seq<string>)
    returns (r: Result<seq<Path>, ScanError>)
    ensures at.None? <==> r == Failure(NotFound(dir))
    ensures at.Some? && !at.value.Directory? <==> r == Failure(NotADirectory(dir))
    ensures at.Some? && at.value.Directory? ==> r == Success(Images(dir, at.value.entries, exts))
  {
    if at.None? {
      return Failure(NotFound(dir));
    }
    if !at.value.Directory? {
      return Failure(NotADirectory(dir));
    }
    var entries := at.value.entries;
    var files: seq<Path> := [];
    var i := 0;
    while i < |entries|
      invariant 0 <= i <= |entries|
      invariant files == Images(dir, entries[..i], exts)
    {
      var entry := entries[i];
      assert entries[..i + 1][..i] == entries[..i];
      if Eligible(entry, exts) {
        files := files + [Path(dir, entry.name)];
      }
      i := i + 1;
    }
    assert entries[..i] == entries;
    return Success(files);
  }

  /** Exactly the eligible entries are listed, each under `dir`. */
  lemma {:induction false} ImagesMembership(dir: string, entries: seq<Entry>, exts: seq<string>, p: Path)
    ensures p in Images(dir, entries, exts) <==>
              exists e :: e in entries && Eligible(e, exts) && p == Path(dir, e.name)
  {
    if entries != [] {
      var init := entries[..|entries| - 1];
      ImagesMembership(dir, init, exts, p);
      assert entries == init + [entries[|entries| - 1]];
      forall e | e in init ensures e in entries { }
    }
  }

  /** The scan keeps listing order: listing `a` then `b` yields the images
      of `a` followed by the images of `b`. */
  lemma {:induction false} ImagesConcat(dir: string, a: seq<Entry>, b: seq<Entry>, exts: seq<string>)
    ensures Images(dir, a + b, exts) == Images(dir, a, exts) + Images(dir, b, exts)
  {
    if b == [] {
      assert a + b == a;
    } else {
      var b' := b[..|b| - 1];
      ImagesConcat(dir, a, b', exts);
      assert (a + b)[..|a + b| - 1] == a + b';
      assert (a + b)[|a + b| - 1] == b[|b| - 1];
    }
  }

  /** At most one path per entry, and every path lies directly in `dir`. */
  lemma {:induction false} ImagesShallow(dir: string, entries: seq<Entry>, exts: seq<string>)
    ensures |Images(dir, entries, exts)| <= |entries|
    ensures forall p :: p in Images(dir, entries, exts) ==> p.parent == dir
  {
    if entries != [] {
      ImagesShallow(dir, entries[..|entries| - 1], exts);
    }
  }

  /** Non-recursive: a file inside a sub-directory (a `thumbnails` folder,
      say) never appears in the listing of the parent. */
  lemma NestedFilesNotListed(dir: string, entries: seq<Entry>, exts: seq<string>, sub: Entry, inner: Entry)
    requires sub in entries && sub.node.Directory? && inner in sub.node.entries
    ensures Path(Join(dir, sub.name), inner.name) !in Images(dir, entries, exts)
  {
    ImagesShallow(dir, entries, exts);
    assert |Join(dir, sub.name)| > |dir|;
  }

  /** A sub-directory or special entry is never listed, given that its
      name is unique in the listing, as a directory listing guarantees. */
  lemma DirectoriesNotListed(dir: string, entries: seq<Entry>, exts: seq<string>, sub: Entry)
    requires sub in entries && !sub.node.RegularFile?
    requires forall e :: e in entries && e.name == sub.name ==> e == sub
    ensures Path(dir, sub.name) !in Images(dir, entries, exts)
  {
    ImagesMembership(dir, entries, exts, Path(dir, sub.name));
  }

  lemma DotAt(name: string, i: int)
    requires 0 <= i < |name| && name[i] == '.'
    requires forall j :: i < j < |name| ==> name[j] != '.'
    ensures LastIndexOf(name, '.') == i
  {
  }

  /** Suffix matching ignores case: an upper-case `.JPG` is listed. */
  lemma UpperCaseSuffixListed()
    ensures Eligible(Entry("SHOT.JPG", RegularFile), DefaultExts)
  {
    DotAt("SHOT.JPG", 4);
    assert Suffix("SHOT.JPG") == ".JPG";
    assert Lower(".JPG") == ".jpg";
  }

  /** The default allow-list leaves `.jpeg` out. */
  lemma JpegSuffixNotListed()
    ensures !Eligible(Entry("shot.jpeg", RegularFile), DefaultExts)
  {
    DotAt("shot.jpeg", 4);
    assert Suffix("shot.jpeg") == ".jpeg";
    assert Lower(".jpeg") == ".jpeg";
  }

  /** What scan_old_new returns for the two listings: warnings about empty
      folders, the limit defaulting to the OLD count, and both lists cut
      to the NEW count when NEW is short of the limit. */
  function ScanLists(olds: seq<Path>, news: seq<Path>, n: Option<int>): (r: (seq<Path>, seq<Path>, seq<ScanWarning>))
    ensures var limit := if n.None? then |olds| else n.value;
            var (o, nw, w) := r;
            && o <= olds && nw <= news
            && (OldEmpty in w <==> |olds| == 0)
            && (NewEmpty in w <==> |news| == 0)
            && (NewShort(|news|, |olds|) in w <==> |news| < limit)
            && |w| == (if |olds| == 0 then 1 else 0) + (if |news| == 0 then 1 else 0)
                        + (if |news| < limit then 1 else 0)
            && (|news| < limit ==> |o| == Min(|news|, |olds|) && |nw| == |news|)
            && (0 <= limit <= |news| ==> |o| == Min(limit, |olds|) && |nw| == limit)
  {
    var w := (if |olds| == 0 then [OldEmpty] else [])
             + (if |news| == 0 then [NewEmpty] else []);
    var limit := if n.None? then |olds| else n.value;
    if |news| < limit then
      (Take(olds, |news|), Take(news, |news|), w + [NewShort(|news|, |olds|)])
    else
      (Take(olds, limit), Take(news, limit), w)
  }

  /** scan_old_new: list OLD then NEW with the default allow-list; the
      first listing error is raised. */
  method ScanOldNew(oldDir: string, oldAt: Option<Node>, newDir: string, newAt: Option<Node>, n: Option<int>)
    returns (r: Result<(seq<Path>, seq<Path>, seq<ScanWarning>), ScanError>)
    ensures oldAt.None? ==> r == Failure(NotFound(oldDir))
    ensures oldAt.Some? && !oldAt.value.Directory? ==> r == Failure(NotADirectory(oldDir))
    ensures oldAt.Some? && oldAt.value.Directory? && newAt.None? ==> r == Failure(NotFound(newDir))
    ensures oldAt.Some? && oldAt.value.Directory? && newAt.Some? && !newAt.value.Directory? ==>
              r == Failure(NotADirectory(newDir))
    ensures r.Success? <==> oldAt.Some? && oldAt.value.Directory? && newAt.Some? && newAt.value.Directory?
    ensures r.Success? ==>
              r.value == ScanLists(Images(oldDir, oldAt.value.entries, DefaultExts),
                                   Images(newDir, newAt.value.entries, DefaultExts), n)
  {
    var oldFiles := ListImagesRaw(oldDir, oldAt, DefaultExts);
    if oldFiles.Failure? {
      return Failure(oldFiles.error);
    }
    var newFiles := ListImagesRaw(newDir, newAt, DefaultExts);
    if newFiles.Failure? {
      return Failure(newFiles.error);
    }
    var olds, news := oldFiles.value, newFiles.value;
    var warnings: seq<ScanWarning> := [];
    if |olds| == 0 {
      warnings := warnings + [OldEmpty];
    }
    if |news| == 0 {
      warnings := warnings + [NewEmpty];
    }
    assert warnings == (if |olds| == 0 then [OldEmpty] else []) + (if |news| == 0 then [NewEmpty] else []);
    var k := if n.None? then |olds| else n.value;
    if |news| < k {
      warnings := warnings + [NewShort(|news|, |olds|)];
      k := |news|;
    }
    return Success((Take(olds, k), Take(news, k), warnings));
  }

  /** With no limit both lists are cut to the smaller count; with equal,
      non-empty folders nothing is cut and no warning is raised. */
  lemma ScanDefaultLimit(olds: seq<Path>, news: seq<Path>)
    ensures var (o, nw, w) := ScanLists(olds, news, None);
            && |o| == |nw| == Min(|olds|, |news|)
            && (|olds| == |news| > 0 ==> o == olds && nw == news && w == [])
  {
  }
}
