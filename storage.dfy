/** The storage capability the upload pipeline writes through: the package
    variable `fs` with `Create(name) (file, error)`, and the `file` it hands
    out with `Write(p) (n, error)` and `Close() error`. The fakes of the test
    file (`dummyFS`, `dummyFile`) agree with the instance whose Create never
    fails and whose Write takes every byte, on every call saveFile makes. */
module Storage {

  /** How many more bytes the device accepts. */
  datatype Quota = Unlimited | Bytes(left: nat)

  /** The number of bytes out of `want` that fit in `q`. */
  function Fit(q: Quota, want: nat): (n: nat)
    ensures n <= want
    ensures q.Unlimited? ==> n == want
    ensures q.Bytes? ==> n <= q.left && (n == want || n == q.left)
  {
    match q
    case Unlimited => want
    case Bytes(k) => if want <= k then want else k
  }

  /** The quota after `n` more bytes are written. */
  function Spend(q: Quota, n: nat): Quota
  {
    match q
    case Unlimited => Unlimited
    case Bytes(k) => Bytes(if n <= k then k - n else 0)
  }

  class FileSystem {
    /** Contents of every file created so far, by path. */
    var files: map<string, seq<bv8>>
    /** Paths at which Create fails. */
    var refused: set<string>
    /** Space left on the device. */
    var free: Quota
    /** Handles created and not yet closed. */
    var openFiles: set<File>

    /** Every handle counted as open is an open handle on this file system. */
    ghost predicate Valid()
      reads this, openFiles
    {
      forall f :: f in openFiles ==> f.open && f.fs == this
    }

    constructor (refused: set<string>, free: Quota)
      ensures this.files == map[] && this.refused == refused && this.free == free
      ensures this.openFiles == {} && Valid()
    {
      this.files := map[];
      this.refused := refused;
      this.free := free;
      this.openFiles := {};
    }

    /** The test file's `dummyFS`: Create always succeeds, and a handle's Write
        takes everything until the handle is closed. */
    constructor Dummy()
      ensures files == map[] && refused == {} && free == Unlimited && openFiles == {}
      ensures Valid()
    {
      files := map[];
      refused := {};
      free := Unlimited;
      openFiles := {};
    }

    /** Creates (or truncates) the file `name` and opens a handle on it, or
        fails when `name` is refused, changing nothing. */
    method Create(name: string) returns (f: File?, err: bool)
      requires Valid()
      modifies this
      ensures Valid()
      ensures err <==> name in refused
      ensures refused == old(refused) && free == old(free)
      ensures err ==> f == null && files == old(files) && openFiles == old(openFiles)
      ensures !err ==> f != null && fresh(f) && f.fs == this && f.name == name && f.open
      ensures !err ==> files == old(files)[name := []] && openFiles == old(openFiles) + {f}
    {
      if name in refused {
        return null, true;
      }
      f := new File(this, name);
      files := files[name := []];
      openFiles := openFiles + {f};
      err := false;
    }
  }

  class File {
    const fs: FileSystem
    const name: string
    var open: bool

    constructor (fs: FileSystem, name: string)
      ensures this.fs == fs && this.name == name && open
    {
      this.fs := fs;
      this.name := name;
      open := true;
    }

    /** Appends as much of `p` as the device accepts. As io.Writer requires,
        a short write reports an error; so does a write on a closed handle. */
    method Write(p: seq<bv8>) returns (n: nat, err: bool)
      modifies fs
      ensures n <= |p|
      ensures err <==> !open || n < |p|
      ensures old(fs.Valid()) ==> fs.Valid()
      ensures fs.refused == old(fs.refused) && fs.openFiles == old(fs.openFiles)
      ensures !open ==> n == 0 && fs.files == old(fs.files) && fs.free == old(fs.free)
      ensures open ==> n == Fit(old(fs.free), |p|) && fs.free == Spend(old(fs.free), n)
      ensures open ==> fs.files == old(fs.files)[name :=
        (if name in old(fs.files) then old(fs.files)[name] else []) + p[..n]]
    {
      if !open {
        return 0, true;
      }
      n := Fit(fs.free, |p|);
      var before := if name in fs.files then fs.files[name] else [];
      fs.files := fs.files[name := before + p[..n]];
      fs.free := Spend(fs.free, n);
      err := n < |p|;
    }

    /** Releases the handle; closing a handle twice reports an error. */
    method Close() returns (err: bool)
      requires fs.Valid()
      modifies this, fs
      ensures fs.Valid()
      ensures !open && err == !old(open)
      ensures fs.openFiles == old(fs.openFiles) - {this}
      ensures fs.files == old(fs.files) && fs.refused == old(fs.refused) && fs.free == old(fs.free)
    {
      err := !open;
      open := false;
      fs.openFiles := fs.openFiles - {this};
    }
  }
}
