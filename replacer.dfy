/** Atomic replacer: overwrites a NEW file's content with an OLD file's,
    either as a byte copy or re-encoded to the format NEW's name calls
    for, always through a temporary file renamed over the destination.
    The file system is a map from paths to contents; Pillow and the
    operating system's failures are inputs. */
module Replacer {
  import opened Common

  type Bytes = seq<byte>

  const JPEG: string := "JPEG"
  const PNG: string := "PNG"

  datatype Action = CopyBytes | Reencode(target: string) | DryRun | Errored

  /** Why a replacement failed: the missing-file checks, or the exception
      caught around the write. */
  datatype Fault =
    | OldNotFound
    | NewNotFound
    | UnknownForceFormat(token: string)
    | CannotOpen(src: Path)
    | UnsupportedTarget(fmt: string)
    | EncodeFailed(msg: string)
    | WriteFailed(msg: string)
    | RenameFailed(msg: string)

  datatype ReplaceResult = ReplaceResult(
    oldPath: Path, newPath: Path, action: Action,
    bytesBefore: nat, bytesAfter: nat, ok: bool, error: Option<Fault>)

  /** Pillow as the replacer uses it: `detect` is the format `Image.open`
      reports, upper-cased, or None when opening raises; `encode` decodes,
      converts the colour mode and saves in the given format, or fails. */
  datatype Codec = Codec(detect: Bytes -> Option<string>, encode: (Bytes, string) -> Result<Bytes, string>)

  /** Operating-system failures: writing the staged content for a
      destination, or renaming the temporary file over it. */
  datatype Disk = Disk(writeFault: Path -> Option<string>, renameFault: Path -> Option<string>)

  /** The two write functions handed to the atomic write. */
  datatype Writer = CopyFrom(src: Path) | EncodeFrom(src: Path, fmt: string)

  /** _target_format_for: a non-empty forced token picks JPEG or PNG, any
      other token is an error; otherwise NEW's extension decides, and an
      unknown extension means JPEG. */
  function TargetFormatFor(newPath: Path, forceFormat: Option<string>): (r: Result<string, Fault>)
    ensures r.Success? ==> r.value == JPEG || r.value == PNG
    ensures r.Failure? <==>
              forceFormat.Some? && forceFormat.value != "" && Lower(forceFormat.value) !in {"jpg", "jpeg", "png"}
    ensures r.Failure? ==> r.error == UnknownForceFormat(forceFormat.value)
    ensures forceFormat.Some? && Lower(forceFormat.value) in {"jpg", "jpeg"} ==> r == Success(JPEG)
    ensures forceFormat.Some? && Lower(forceFormat.value) == "png" ==> r == Success(PNG)
    ensures forceFormat.None? || forceFormat.value == "" ==>
              r == Success(if Lower(Suffix(newPath.name)) == ".png" then PNG else JPEG)
  {
    if forceFormat.Some? && forceFormat.value != "" then
      var f := Lower(forceFormat.value);
      if f in {"jpg", "jpeg"} then Success(JPEG)
      else if f == "png" then Success(PNG)
      else Failure(UnknownForceFormat(forceFormat.value))
    else
      var ext := Lower(Suffix(newPath.name));
      if ext in {".jpg", ".jpeg"} then Success(JPEG)
      else if ext == ".png" then Success(PNG)
      else Success(JPEG)
  }

  /** What a write function leaves in the temporary file, or what it
      raises: the copy reads the source; the re-encode opens it with
      Pillow, rejects a format other than JPEG or PNG, then encodes. */
  function Staged(files: map<Path, Bytes>, w: Writer, codec: Codec, writeFault: Option<string>): (r: Result<Bytes, Fault>)
    ensures r.Success? ==> w.src in files && writeFault.None?
    ensures r.Success? && w.CopyFrom? ==> r.value == files[w.src]
    ensures r.Success? && w.EncodeFrom? ==>
              (w.fmt == JPEG || w.fmt == PNG) && codec.encode(files[w.src], w.fmt) == Success(r.value)
    ensures w.src !in files ==> r == Failure(CannotOpen(w.src))
    ensures w.src in files && w.CopyFrom? ==> (r.Failure? <==> writeFault.Some?)
    ensures w.src in files && w.EncodeFrom? ==>
              (r.Failure? <==>
                 || codec.detect(files[w.src]).None?
                 || (w.fmt != JPEG && w.fmt != PNG)
                 || codec.encode(files[w.src], w.fmt).Failure?
                 || writeFault.Some?)
    ensures w.src in files && w.EncodeFrom? && codec.detect(files[w.src]).None? ==>
              r == Failure(CannotOpen(w.src))
    ensures w.src in files && w.EncodeFrom? && codec.detect(files[w.src]).Some? && w.fmt != JPEG && w.fmt != PNG ==>
              r == Failure(UnsupportedTarget(w.fmt))
    ensures w.src in files && w.EncodeFrom? && codec.detect(files[w.src]).Some? && (w.fmt == JPEG || w.fmt == PNG)
            && codec.encode(files[w.src], w.fmt).Failure? ==>
              r == Failure(EncodeFailed(codec.encode(files[w.src], w.fmt).error))
    ensures w.src in files && writeFault.Some?
            && (w.CopyFrom? || (codec.detect(files[w.src]).Some? && (w.fmt == JPEG || w.fmt == PNG)
                                && codec.encode(files[w.src], w.fmt).Success?)) ==>
              r == Failure(WriteFailed(writeFault.value))
  {
    if w.src !in files then Failure(CannotOpen(w.src))
    else match w
      case CopyFrom(src) =>
        if writeFault.Some? then Failure(WriteFailed(writeFault.value)) else Success(files[src])
      case EncodeFrom(src, fmt) =>
        if codec.detect(files[src]).None? then Failure(CannotOpen(src))
        else if fmt != JPEG && fmt != PNG then Failure(UnsupportedTarget(fmt))
        else match codec.encode(files[src], fmt)
          case Failure(msg) => Failure(EncodeFailed(msg))
          case Success(b) =>
            if writeFault.Some? then Failure(WriteFailed(writeFault.value)) else Success(b)
  }

  /** The file system after _write_atomic, or the exception it re-raises:
      on success only the destination changes, to the staged content. */
  function AtomicWrite(files: map<Path, Bytes>, dst: Path, w: Writer, codec: Codec, disk: Disk)
    : (r: Result<map<Path, Bytes>, Fault>)
    ensures r.Success? ==> Staged(files, w, codec, disk.writeFault(dst)).Success?
    ensures r.Success? ==> r.value == files[dst := Staged(files, w, codec, disk.writeFault(dst)).value]
    ensures r.Failure? && Staged(files, w, codec, disk.writeFault(dst)).Failure? ==>
              r.error == Staged(files, w, codec, disk.writeFault(dst)).error
    ensures r.Failure? && Staged(files, w, codec, disk.writeFault(dst)).Success? ==>
              disk.renameFault(dst).Some? && r.error == RenameFailed(disk.renameFault(dst).value)
  {
    match Staged(files, w, codec, disk.writeFault(dst))
    case Failure(f) => Failure(f)
    case Success(b) =>
      if disk.renameFault(dst).Some? then Failure(RenameFailed(disk.renameFault(dst).value))
      else Success(files[dst := b])
  }

  /** A temporary path as NamedTemporaryFile hands it out: new, beside
      the destination, and not the destination itself. */
  predicate FreshTemp(files: map<Path, Bytes>, tmp: Path, dst: Path) {
    tmp !in files && tmp != dst && tmp.parent == dst.parent
  }

  function Size(files: map<Path, Bytes>, p: Path): nat {
    if p in files then |files[p]| else 0
  }

  /** replace_one as a function of the file system before the call: the
      result and the file system after it. */
  function ReplaceOutcome(files: map<Path, Bytes>, oldPath: Path, newPath: Path, forceFormat: Option<string>,
                          dryRun: bool, codec: Codec, disk: Disk)
    : (out: (ReplaceResult, map<Path, Bytes>))
    ensures out.0.oldPath == oldPath && out.0.newPath == newPath
    ensures out.0.bytesBefore == Size(files, newPath)
    ensures out.0.ok <==> out.0.error.None?
    ensures dryRun ==> out.1 == files && out.0.ok && out.0.action == DryRun
    ensures !out.0.ok ==> out.1 == files && out.0.bytesAfter == out.0.bytesBefore
    ensures out.0.bytesAfter == Size(out.1, newPath)
    ensures out.0.ok && !dryRun ==>
              && oldPath in files && newPath in files && out.1.Keys == files.Keys
              && (forall p :: p in files && p != newPath ==> out.1[p] == files[p])
    ensures out.1.Keys == files.Keys
    ensures out.0.action == CopyBytes ==> oldPath in files && out.1 == files[newPath := files[oldPath]]
    ensures out.0.action.Reencode? ==>
              && oldPath in files
              && (out.0.action.target == JPEG || out.0.action.target == PNG)
              && codec.encode(files[oldPath], out.0.action.target).Success?
              && out.1 == files[newPath := codec.encode(files[oldPath], out.0.action.target).value]
    ensures out.0.action.Reencode? ==>
              TargetFormatFor(newPath, forceFormat) == Success(out.0.action.target)
    ensures !dryRun && (oldPath !in files || newPath !in files) ==> out.0.action == DryRun && !out.0.ok
    ensures !dryRun && oldPath in files && newPath in files && !out.0.ok ==> out.0.action == Errored
  {
    var before := Size(files, newPath);
    var failed := (f: Fault, act: Action) => (ReplaceResult(oldPath, newPath, act, before, before, false, Some(f)), files);
    if dryRun then
      (ReplaceResult(oldPath, newPath, DryRun, before, before, true, None), files)
    else if oldPath !in files then failed(OldNotFound, DryRun)
    else if newPath !in files then failed(NewNotFound, DryRun)
    else match TargetFormatFor(newPath, forceFormat)
      case Failure(f) => failed(f, Errored)
      case Success(target) =>
        var copy := codec.detect(files[oldPath]) == Some(target) && forceFormat.None?;
        var w := if copy then CopyFrom(oldPath) else EncodeFrom(oldPath, target);
        match AtomicWrite(files, newPath, w, codec, disk)
        case Failure(f) => failed(f, Errored)
        case Success(files') =>
          (ReplaceResult(oldPath, newPath, if copy then CopyBytes else Reencode(target),
                         before, Size(files', newPath), true, None), files')
  }

  /** The missing-file checks come after the dry-run check, OLD before
      NEW; both report the action "dry-run" and change nothing. */
  lemma MissingFilesReported(files: map<Path, Bytes>, oldPath: Path, newPath: Path, forceFormat: Option<string>,
                             codec: Codec, disk: Disk)
    requires oldPath !in files || newPath !in files
    ensures var (r, files') := ReplaceOutcome(files, oldPath, newPath, forceFormat, false, codec, disk);
            && files' == files && !r.ok && r.action == DryRun
            && r.error == Some(if oldPath !in files then OldNotFound else NewNotFound)
  {
  }

  /** The byte copy is taken exactly when no format is forced, Pillow
      detects in OLD the target format, and the write goes through. */
  lemma CopyBytesExactly(files: map<Path, Bytes>, oldPath: Path, newPath: Path, forceFormat: Option<string>,
                         codec: Codec, disk: Disk)
    requires oldPath in files && newPath in files
    ensures var (r, files') := ReplaceOutcome(files, oldPath, newPath, forceFormat, false, codec, disk);
            r.action == CopyBytes <==>
              && forceFormat.None?
              && codec.detect(files[oldPath]) == Some(TargetFormatFor(newPath, None).value)
              && disk.writeFault(newPath).None? && disk.renameFault(newPath).None?
  {
  }

  /** The re-encode path: once the target is known and the byte copy is
      not chosen, the replacement succeeds exactly when Pillow opens OLD,
      encodes it and the write and rename go through; a success reports
      the re-encode with NEW's new content, and a failure reports "error"
      with the first exception raised and changes nothing. */
  lemma ReencodePathOutcome(files: map<Path, Bytes>, oldPath: Path, newPath: Path, forceFormat: Option<string>,
                            codec: Codec, disk: Disk, t: string)
    requires oldPath in files && newPath in files
    requires TargetFormatFor(newPath, forceFormat) == Success(t)
    requires !(codec.detect(files[oldPath]) == Some(t) && forceFormat.None?)
    ensures var (r, files') := ReplaceOutcome(files, oldPath, newPath, forceFormat, false, codec, disk);
            var src := files[oldPath];
            && (r.ok <==> codec.detect(src).Some? && codec.encode(src, t).Success?
                          && disk.writeFault(newPath).None? && disk.renameFault(newPath).None?)
            && (r.ok ==> r.action == Reencode(t) && files' == files[newPath := codec.encode(src, t).value]
                         && r.bytesAfter == |codec.encode(src, t).value|)
            && (!r.ok ==> r.action == Errored && files' == files && r.bytesAfter == r.bytesBefore
                          && r.error == Some(
                               if codec.detect(src).None? then CannotOpen(oldPath)
                               else if codec.encode(src, t).Failure? then EncodeFailed(codec.encode(src, t).error)
                               else if disk.writeFault(newPath).Some? then WriteFailed(disk.writeFault(newPath).value)
                               else RenameFailed(disk.renameFault(newPath).value)))
  {
    var w := EncodeFrom(oldPath, t);
    var st := Staged(files, w, codec, disk.writeFault(newPath));
    assert t == JPEG || t == PNG;
    assert AtomicWrite(files, newPath, w, codec, disk).Success? ==> st.Success?;
  }

  /** The byte-copy path: once it is chosen, the replacement succeeds
      exactly when the write and rename go through, and a failure reports
      "error" with the exception raised and changes nothing. */
  lemma CopyPathOutcome(files: map<Path, Bytes>, oldPath: Path, newPath: Path, codec: Codec, disk: Disk)
    requires oldPath in files && newPath in files
    requires codec.detect(files[oldPath]) == Some(TargetFormatFor(newPath, None).value)
    ensures var (r, files') := ReplaceOutcome(files, oldPath, newPath, None, false, codec, disk);
            && (r.ok <==> disk.writeFault(newPath).None? && disk.renameFault(newPath).None?)
            && (r.ok ==> r.action == CopyBytes && files' == files[newPath := files[oldPath]]
                         && r.bytesAfter == |files[oldPath]|)
            && (!r.ok ==> r.action == Errored && files' == files
                          && r.error == Some(
                               if disk.writeFault(newPath).Some? then WriteFailed(disk.writeFault(newPath).value)
                               else RenameFailed(disk.renameFault(newPath).value)))
  {
  }

  /** An unknown forced token is raised inside the try block: the result
      is "error" carrying that token, and nothing changes. */
  lemma UnknownTokenReported(files: map<Path, Bytes>, oldPath: Path, newPath: Path, token: string,
                             codec: Codec, disk: Disk)
    requires oldPath in files && newPath in files
    requires token != "" && Lower(token) !in {"jpg", "jpeg", "png"}
    ensures var (r, files') := ReplaceOutcome(files, oldPath, newPath, Some(token), false, codec, disk);
            && !r.ok && r.action == Errored && r.error == Some(UnknownForceFormat(token)) && files' == files
  {
  }

  /** A forced token, even an empty one, never leads to a byte copy. */
  lemma ForcedNeverCopies(files: map<Path, Bytes>, oldPath: Path, newPath: Path, token: string,
                          dryRun: bool, codec: Codec, disk: Disk)
    ensures ReplaceOutcome(files, oldPath, newPath, Some(token), dryRun, codec, disk).0.action != CopyBytes
  {
  }

  /** An OLD file Pillow cannot open goes the re-encode way, where the
      same open fails: the result is an error and nothing changes. */
  lemma UnreadableOriginFails(files: map<Path, Bytes>, oldPath: Path, newPath: Path, forceFormat: Option<string>,
                              codec: Codec, disk: Disk)
    requires oldPath in files && newPath in files
    requires TargetFormatFor(newPath, forceFormat).Success?
    requires codec.detect(files[oldPath]).None?
    ensures var (r, files') := ReplaceOutcome(files, oldPath, newPath, forceFormat, false, codec, disk);
            && r.action == Errored && r.error == Some(CannotOpen(oldPath)) && files' == files
  {
  }

  /** The target is always JPEG or PNG, so the "unsupported target"
      branch of the re-encode is never reached. */
  lemma NoUnsupportedTarget(files: map<Path, Bytes>, oldPath: Path, newPath: Path, forceFormat: Option<string>,
                            dryRun: bool, codec: Codec, disk: Disk)
    ensures var (r, _) := ReplaceOutcome(files, oldPath, newPath, forceFormat, dryRun, codec, disk);
            forall fmt :: r.error != Some(UnsupportedTarget(fmt))
  {
  }

  /** replace_many as a function: replace_one on each pair in turn, each
      seeing the file system the previous ones left. */
  function ReplaceManyOutcome(files: map<Path, Bytes>, pairs: seq<(Path, Path)>, forceFormat: Option<string>,
                              dryRun: bool, codec: Codec, disk: Disk)
    : (out: (seq<ReplaceResult>, map<Path, Bytes>))
    ensures |out.0| == |pairs|
    ensures forall i :: 0 <= i < |pairs| ==> out.0[i].oldPath == pairs[i].0 && out.0[i].newPath == pairs[i].1
    ensures out.1.Keys == files.Keys
  {
    if pairs == [] then ([], files)
    else
      var (rs, mid) := ReplaceManyOutcome(files, pairs[..|pairs| - 1], forceFormat, dryRun, codec, disk);
      var last := pairs[|pairs| - 1];
      var (r, files') := ReplaceOutcome(mid, last.0, last.1, forceFormat, dryRun, codec, disk);
      (rs + [r], files')
  }

  /** A dry run over any batch changes nothing and reports every pair as
      a successful "dry-run" with its current size. */
  lemma {:induction false} DryRunManyChangesNothing(files: map<Path, Bytes>, pairs: seq<(Path, Path)>,
                                                    forceFormat: Option<string>, codec: Codec, disk: Disk)
    ensures var (rs, files') := ReplaceManyOutcome(files, pairs, forceFormat, true, codec, disk);
            && files' == files
            && forall i :: 0 <= i < |rs| ==>
                 rs[i].ok && rs[i].action == DryRun && rs[i].bytesAfter == rs[i].bytesBefore == Size(files, pairs[i].1)
  {
    if pairs != [] {
      DryRunManyChangesNothing(files, pairs[..|pairs| - 1], forceFormat, codec, disk);
    }
  }

  /** A pair's failure does not stop the batch: the results of a batch
      are those of its first part followed by those of the rest, run on
      the file system the first part left. */
  lemma {:induction false} ReplaceManySplit(files: map<Path, Bytes>, a: seq<(Path, Path)>, b: seq<(Path, Path)>,
                                            forceFormat: Option<string>, dryRun: bool, codec: Codec, disk: Disk)
    ensures var (ra, mid) := ReplaceManyOutcome(files, a, forceFormat, dryRun, codec, disk);
            var (rb, end) := ReplaceManyOutcome(mid, b, forceFormat, dryRun, codec, disk);
            ReplaceManyOutcome(files, a + b, forceFormat, dryRun, codec, disk) == (ra + rb, end)
  {
    if b == [] {
      assert a + b == a;
      var (ra, mid) := ReplaceManyOutcome(files, a, forceFormat, dryRun, codec, disk);
      assert ra + [] == ra;
    } else {
      var b', last := b[..|b| - 1], b[|b| - 1];
      ReplaceManySplit(files, a, b', forceFormat, dryRun, codec, disk);
      assert (a + b)[..|a + b| - 1] == a + b';
      assert (a + b)[|a + b| - 1] == last;
      var (ra, mid) := ReplaceManyOutcome(files, a, forceFormat, dryRun, codec, disk);
      var (rb', end') := ReplaceManyOutcome(mid, b', forceFormat, dryRun, codec, disk);
      var (r, end) := ReplaceOutcome(end', last.0, last.1, forceFormat, dryRun, codec, disk);
      assert ReplaceManyOutcome(mid, b, forceFormat, dryRun, codec, disk) == (rb' + [r], end);
      assert ReplaceManyOutcome(files, a + b, forceFormat, dryRun, codec, disk) == (ra + rb' + [r], end);
      assert ra + rb' + [r] == ra + (rb' + [r]);
    }
  }

  /** The file system as the replacer sees it: file contents by path,
      and the faults the operating system will raise. */
  class FileSystem {
    var files: map<Path, Bytes>
    const disk: Disk

    constructor (initial: map<Path, Bytes>, disk: Disk)
      ensures files == initial && this.disk == disk
    {
      files := initial;
      this.disk := disk;
    }

    /** _write_atomic: create the temporary file, run the write function
        into it, rename it over the destination; on an exception remove
        the temporary file and re-raise. */
    method WriteAtomic(dst: Path, tmp: Path, w: Writer, codec: Codec) returns (raised: Option<Fault>)
      requires FreshTemp(files, tmp, dst) && tmp != w.src
      modifies this
      ensures var r := AtomicWrite(old(files), dst, w, codec, disk);
              && (r.Success? ==> raised.None? && files == r.value)
              && (r.Failure? ==> raised == Some(r.error) && files == old(files))
      ensures tmp !in files
    {
      files := files[tmp := []];
      var staged := Staged(files, w, codec, disk.writeFault(dst));
      assert staged == Staged(old(files), w, codec, disk.writeFault(dst));
      if staged.Failure? {
        if tmp in files {
          files := files - {tmp};
        }
        assert files == old(files);
        return Some(staged.error);
      }
      files := files[tmp := staged.value];
      if disk.renameFault(dst).Some? {
        if tmp in files {
          files := files - {tmp};
        }
        assert files == old(files);
        return Some(RenameFailed(disk.renameFault(dst).value));
      }
      files := (files - {tmp})[dst := files[tmp]];
      assert files == old(files)[dst := staged.value];
      return None;
    }

    /** _copy_bytes_atomic. */
    method CopyBytesAtomic(src: Path, dst: Path, tmp: Path, codec: Codec) returns (raised: Option<Fault>)
      requires FreshTemp(files, tmp, dst) && tmp != src
      modifies this
      ensures var r := AtomicWrite(old(files), dst, CopyFrom(src), codec, disk);
              && (r.Success? ==> raised.None? && files == r.value)
              && (r.Failure? ==> raised == Some(r.error) && files == old(files))
    {
      raised := WriteAtomic(dst, tmp, CopyFrom(src), codec);
    }

    /** _reencode_atomic. */
    method ReencodeAtomic(src: Path, dst: Path, fmt: string, tmp: Path, codec: Codec) returns (raised: Option<Fault>)
      requires FreshTemp(files, tmp, dst) && tmp != src
      modifies this
      ensures var r := AtomicWrite(old(files), dst, EncodeFrom(src, fmt), codec, disk);
              && (r.Success? ==> raised.None? && files == r.value)
              && (r.Failure? ==> raised == Some(r.error) && files == old(files))
    {
      raised := WriteAtomic(dst, tmp, EncodeFrom(src, fmt), codec);
    }

    /** replace_one: dry run, then the missing-file checks, then the target
        format, the copy-or-re-encode decision and the atomic write, with
        any exception turned into an "error" result. */
    method ReplaceOne(oldPath: Path, newPath: Path, forceFormat: Option<string>, dryRun: bool,
                      codec: Codec, tmp: Path) returns (r: ReplaceResult)
      requires FreshTemp(files, tmp, newPath)
      modifies this
      ensures (r, files) == ReplaceOutcome(old(files), oldPath, newPath, forceFormat, dryRun, codec, disk)
    {
      var before := if newPath in files then |files[newPath]| else 0;
      if dryRun {
        return ReplaceResult(oldPath, newPath, DryRun, before, before, true, None);
      }
      if oldPath !in files {
        return ReplaceResult(oldPath, newPath, DryRun, before, before, false, Some(OldNotFound));
      }
      if newPath !in files {
        return ReplaceResult(oldPath, newPath, DryRun, before, before, false, Some(NewNotFound));
      }
      var target := TargetFormatFor(newPath, forceFormat);
      if target.Failure? {
        return ReplaceResult(oldPath, newPath, Errored, before, before, false, Some(target.error));
      }
      var srcFmt := codec.detect(files[oldPath]);
      var raised: Option<Fault>;
      var action: Action;
      if srcFmt == Some(target.value) && forceFormat.None? {
        raised := CopyBytesAtomic(oldPath, newPath, tmp, codec);
        action := CopyBytes;
      } else {
        raised := ReencodeAtomic(oldPath, newPath, target.value, tmp, codec);
        action := Reencode(target.value);
      }
      if raised.Some? {
        return ReplaceResult(oldPath, newPath, Errored, before, before, false, raised);
      }
      var after := if newPath in files then |files[newPath]| else 0;
      return ReplaceResult(oldPath, newPath, action, before, after, true, None);
    }

    /** replace_many: replace_one on every pair, in order, with the same
        forced format and dry-run flag; `tmpFor` names the temporary file
        the operating system hands out for each destination. */
    method ReplaceMany(pairs: seq<(Path, Path)>, forceFormat: Option<string>, dryRun: bool,
                       codec: Codec, tmpFor: Path -> Path) returns (results: seq<ReplaceResult>)
      requires forall i :: 0 <= i < |pairs| ==> FreshTemp(files, tmpFor(pairs[i].1), pairs[i].1)
      modifies this
      ensures (results, files) == ReplaceManyOutcome(old(files), pairs, forceFormat, dryRun, codec, disk)
    {
      results := [];
      var i := 0;
      while i < |pairs|
        invariant 0 <= i <= |pairs|
        invariant (results, files) == ReplaceManyOutcome(old(files), pairs[..i], forceFormat, dryRun, codec, disk)
        invariant files.Keys == old(files).Keys
      {
        assert pairs[..i + 1][..i] == pairs[..i];
        var (oldPath, newPath) := pairs[i];
        assert FreshTemp(files, tmpFor(newPath), newPath);
        var res := ReplaceOne(oldPath, newPath, forceFormat, dryRun, codec, tmpFor(newPath));
        results := results + [res];
        i := i + 1;
      }
      assert pairs[..i] == pairs;
    }
  }
}
