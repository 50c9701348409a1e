/** The validate-then-save pipeline `saveFile(reader, dir, id, format, limit)`
    of package imageupload, over the package state that `init` sets up: the
    registry built by `initExtMap` and the storage capability `fs`. */
module Upload {
  import opened Ext
  import opened Formats
  import opened Storage

  /** The error kinds saveFile reports; NotSupported is ErrFileNotSupported. */
  datatype ErrorKind = NotSupported | DecodeFailed | SizeLimitExceeded | StorageFailed

  /** What saveFile returns: the path it wrote, or the error. */
  datatype Outcome = Saved(path: string) | Failed(kind: ErrorKind)

  datatype Validation = Accepted(format: Format) | Rejected(kind: ErrorKind)

  /** Joins a directory and a file name with exactly one '/' between them:
      the directory's own trailing '/' is reused, an empty directory adds none. */
  function Join(dir: string, name: string): (p: string)
    ensures |p| >= |dir| + |name| && p[..|dir|] == dir && p[|p| - |name|..] == name
    ensures dir == "" ==> p == name
    ensures dir != "" ==> p[|p| - |name| - 1] == '/' && p[|p| - |name| - 1..|p| - |name|] == "/"
    ensures dir != "" && dir[|dir| - 1] == '/' ==> |p| == |dir| + |name|
    ensures dir != "" && dir[|dir| - 1] != '/' ==> |p| == |dir| + 1 + |name|
  {
    if dir == "" then name
    else if dir[|dir| - 1] == '/' then dir + name
    else dir + "/" + name
  }

  /** The destination `<dir>/<id>.<format>`: the extension is the claimed format. */
  function DestPath(dir: string, id: string, format: string): (p: string)
    ensures |p| >= |dir| + |id| + 1 + |format| && p[..|dir|] == dir
    ensures p[|p| - |format| - |id| - 1..] == id + "." + format
    ensures dir != "" ==> p[|p| - |format| - |id| - 2] == '/'
  {
    Join(dir, id + "." + format)
  }

  /** The checks saveFile makes before touching storage, in its order: the
      claimed format must be registered, the content must decode as that format,
      and a positive limit must not be exceeded (0 means unlimited). Content is
      accepted exactly when it passes all three, with the format its token
      selects; each rejection names the first check that failed. */
  function Validate(registry: map<string, Format>, codecs: Codecs,
                    content: seq<bv8>, format: string, limit: int): (v: Validation)
    ensures v.Accepted? <==> format in registry && Decodes(codecs, registry[format], content)
                             && (limit <= 0 || |content| <= limit)
    ensures v.Accepted? ==> v.format == registry[format]
    ensures v == Rejected(NotSupported) <==> format !in registry
    ensures v == Rejected(DecodeFailed) <==>
              format in registry && !Decodes(codecs, registry[format], content)
  {
    if format !in registry then Rejected(NotSupported)
    else if !Decodes(codecs, registry[format], content) then Rejected(DecodeFailed)
    else if limit > 0 && |content| > limit then Rejected(SizeLimitExceeded)
    else Accepted(registry[format])
  }

  /** The format check wins: an unregistered token is NotSupported whatever the
      content, even content that would not decode under any format. */
  lemma UnknownFormatWins(codecs: Codecs, content: seq<bv8>, format: string, limit: int)
    requires format !in ExtMap()
    ensures Validate(ExtMap(), codecs, content, format, limit) == Rejected(NotSupported)
  {
  }

  /** A limit of 0 never rejects anything. */
  lemma ZeroLimitIsUnlimited(registry: map<string, Format>, codecs: Codecs,
                             content: seq<bv8>, format: string)
    ensures Validate(registry, codecs, content, format, 0) != Rejected(SizeLimitExceeded)
  {
  }

  /** An empty or "nop" stream for any registered token fails at decoding. */
  lemma GarbageFailsDecode(codecs: Codecs, format: string, limit: int)
    requires Sound(codecs)
    requires format in ExtMap()
    ensures Validate(ExtMap(), codecs, Nop, format, limit) == Rejected(DecodeFailed)
    ensures Validate(ExtMap(), codecs, [], format, limit) == Rejected(DecodeFailed)
  {
    NopAndEmptyNeverDecode(codecs, ExtMap()[format]);
  }

  /** Decoding is the content check: a stream carrying another registered
      format's signature (a PNG uploaded as "jpg", say) fails with DecodeFailed. */
  lemma MislabelledUploadRejected(codecs: Codecs, content: seq<bv8>, format: string,
                                  actual: Format, limit: int)
    requires Sound(codecs)
    requires format in ExtMap() && ExtMap()[format] != actual
    requires HasSignature(actual, content)
    ensures Validate(ExtMap(), codecs, content, format, limit) == Rejected(DecodeFailed)
  {
    MislabelledNeverDecodes(codecs, ExtMap()[format], actual, content);
  }

  /** The stored file's extension is the claimed format for any format token
      without a '.', so it resolves back to the decoder that validated it. */
  lemma DestPathExt(dir: string, id: string, format: string)
    requires '.' !in format
    ensures GetExt(DestPath(dir, id, format)) == format
  {
    var name := id + "." + format;
    var p := DestPath(dir, id, format);
    var stem := p[..|p| - |name|] + id;
    assert p == p[..|p| - |name|] + name;
    assert p == stem + "." + format;
    GetExtOfSplit(stem, format);
  }

  /** The saved file validates again under its own name: taking the extension
      of the path saveFile wrote as the claimed format accepts the same content
      with the same format. */
  lemma SavedNameRevalidates(codecs: Codecs, content: seq<bv8>, dir: string, id: string,
                             format: string, limit: int)
    requires Validate(ExtMap(), codecs, content, format, limit).Accepted?
    ensures Validate(ExtMap(), codecs, content, GetExt(DestPath(dir, id, format)), limit)
              == Validate(ExtMap(), codecs, content, format, limit)
  {
    DestPathExt(dir, id, format);
  }

  /** The path of TestJPGHappyPath: no doubled separator. */
  lemma DestPathOfHappyPath()
    ensures DestPath("/", "testID", "jpg") == "/testID.jpg"
  {
  }

  /** The effect of storing `content` at `p`, from storage state (files, free,
      refused) to (files', free'): a refused path gives StorageFailed and changes
      nothing; otherwise `p` holds the part of the content that fit, and the
      outcome is the path exactly when all of it fit. */
  ghost predicate Stored(p: string, content: seq<bv8>, r: Outcome,
                         files: map<string, seq<bv8>>, free: Quota, refused: set<string>,
                         files': map<string, seq<bv8>>, free': Quota)
  {
    if p in refused then
      r == Failed(StorageFailed) && files' == files && free' == free
    else
      var n := Fit(free, |content|);
      && files' == files[p := content[..n]]
      && free' == Spend(free, n)
      && r == (if n == |content| then Saved(p) else Failed(StorageFailed))
  }

  /** The package state: the registry and the storage capability, both set
      once by `init` and only read afterwards. */
  class ImageUpload {
    const extMap: map<string, Format>
    const codecs: Codecs
    const fs: FileSystem

    /** `init`: `initExtMap()` and installs the storage capability. */
    constructor Init(codecs: Codecs, fs: FileSystem)
      ensures extMap == ExtMap() && this.codecs == codecs && this.fs == fs
    {
      extMap := ExtMap();
      this.codecs := codecs;
      this.fs := fs;
    }

    /** Validates `content` as `format`, then writes it to `<dir>/<id>.<format>`
        through `fs`, closing the handle it opened on every path. Nothing is
        created when validation fails or Create fails; a short write leaves the
        prefix that fit and reports StorageFailed. */
    method SaveFile(content: seq<bv8>, dir: string, id: string, format: string, limit: int)
      returns (r: Outcome, ghost handle: File?)
      requires fs.Valid()
      modifies fs
      ensures fs.Valid()
      ensures handle != null ==> fresh(handle) && handle.fs == fs && !handle.open
      ensures fs.openFiles == old(fs.openFiles) && fs.refused == old(fs.refused)
      ensures var v := Validate(extMap, codecs, content, format, limit);
              v.Rejected? ==> r == Failed(v.kind) && fs.files == old(fs.files) && fs.free == old(fs.free)
      ensures var v := Validate(extMap, codecs, content, format, limit);
              v.Accepted? ==> Stored(DestPath(dir, id, format), content, r,
                                     old(fs.files), old(fs.free), old(fs.refused), fs.files, fs.free)
    {
      var v := Validate(extMap, codecs, content, format, limit);
      if v.Rejected? {
        return Failed(v.kind), null;
      }
      var p := DestPath(dir, id, format);
      r, handle := Persist(p, content);
    }

    /** The storage step: create `p`, write all of `content`, close the handle. */
    method Persist(p: string, content: seq<bv8>) returns (r: Outcome, ghost handle: File?)
      requires fs.Valid()
      modifies fs
      ensures fs.Valid()
      ensures handle != null ==> fresh(handle) && handle.fs == fs && !handle.open
      ensures fs.openFiles == old(fs.openFiles) && fs.refused == old(fs.refused)
      ensures Stored(p, content, r, old(fs.files), old(fs.free), old(fs.refused), fs.files, fs.free)
    {
      var f, createErr := fs.Create(p);
      handle := f;
      if createErr {
        return Failed(StorageFailed), handle;
      }
      ghost var created := fs.files;
      var n, writeErr := f.Write(content);
      assert created[p] == [] && [] + content[..n] == content[..n];
      assert fs.files == created[p := content[..n]];
      var _ := f.Close();
      if writeErr {
        r := Failed(StorageFailed);
      } else {
        r := Saved(p);
      }
    }
  }
}
