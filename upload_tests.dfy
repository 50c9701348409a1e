/** The scenarios of the package's test file as client methods of the model:
    each sets up the package state as `init` does, with the registry and the
    fake storage (`dummyFS`), calls SaveFile with directory "/", id "testID"
    and limit 0, and states in its ensures the outcome and what storage holds
    afterwards. */
module UploadTests {
  import opened Formats
  import opened Storage
  import opened Upload

  /** TestUnknownFormat: "unknown" is not registered, so the result is exactly
      ErrFileNotSupported although "nop" would not decode either; nothing is stored. */
  method UnknownFormat(codecs: Codecs) returns (r: Outcome, stored: map<string, seq<bv8>>)
    ensures r == Failed(NotSupported)
    ensures stored == map[]
  {
    var fs := new FileSystem.Dummy();
    var pkg := new ImageUpload.Init(codecs, fs);
    ghost var handle;
    r, handle := pkg.SaveFile(Nop, "/", "testID", "unknown", 0);
    stored := fs.files;
  }

  /** TestJPGDecodeFail, TestPNGDecodeFail, TestGIFDecodeFail: "nop" under a
      registered format fails at decoding, and no file is created. */
  method DecodeFail(codecs: Codecs, format: string) returns (r: Outcome, stored: map<string, seq<bv8>>)
    requires Sound(codecs)
    requires format == "jpg" || format == "png" || format == "gif"
    ensures r == Failed(DecodeFailed)
    ensures stored == map[]
  {
    var fs := new FileSystem.Dummy();
    var pkg := new ImageUpload.Init(codecs, fs);
    GarbageFailsDecode(codecs, format, 0);
    ghost var handle;
    r, handle := pkg.SaveFile(Nop, "/", "testID", format, 0);
    stored := fs.files;
  }

  /** TestJPGHappyPath: an image the JPEG decoder accepts is saved as exactly
      "/testID.jpg", and that file holds every byte of it. */
  method JpgHappyPath(codecs: Codecs, image: seq<bv8>) returns (r: Outcome, stored: map<string, seq<bv8>>)
    requires codecs.jpeg(image)
    ensures r == Saved("/testID.jpg")
    ensures stored == map["/testID.jpg" := image]
  {
    var fs := new FileSystem.Dummy();
    var pkg := new ImageUpload.Init(codecs, fs);
    DestPathOfHappyPath();
    ghost var handle;
    r, handle := pkg.SaveFile(image, "/", "testID", "jpg", 0);
    stored := fs.files;
    assert image[..|image|] == image;
  }
}
