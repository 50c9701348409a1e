# imageupload in Dafny

A model of the core of the Go package `imageupload`. The package validates an
uploaded image, then stores it. `saveFile(reader, dir, id, format, limit)`
looks the claimed format up in the registry that `initExtMap` builds. It
decodes the bytes with that format's decoder. It then writes them through the
package's storage capability `fs` to `<dir>/<id>.<format>`. `getExt` gives a
file name's extension.

- `ext.dfy`, module `Ext`: `getExt` is `GetExt`. It returns the text after the
  last `.`, or the whole name when there is none. `LastIndex` is its helper.
- `formats.dfy`, module `Formats`: the registry (`ExtMap`, token to `Format`).
  It holds the three decoders as opaque function values (`Codecs`). `Sound`
  states the one thing assumed of those decoders: a JPEG, PNG or GIF decoder
  accepts only a stream that starts with its format's signature.
- `storage.dfy`, module `Storage`: the storage capability. It is the class
  `FileSystem`, whose `Create` can fail for configured paths. `Create` hands
  out a `File`, whose `Write` takes at most the free space and whose `Close`
  releases the handle. `FileSystem.Valid` ties the set of open handles to the
  handles' own state. `FileSystem.Dummy` agrees with the test file's `dummyFS`
  and `dummyFile` on every call `SaveFile` makes.
- `upload.dfy`, module `Upload`: the naming rule (`Join`, `DestPath`) and the
  ordered checks (`Validate`). The class `ImageUpload` is the package state set
  by `init`: the registry, the decoders and `fs`. `SaveFile` runs the pipeline
  on that state.
- `upload_tests.dfy`, module `UploadTests`: the test functions
  `TestUnknownFormat`, `Test{JPG,PNG,GIF}DecodeFail` and `TestJPGHappyPath`
  as client methods. Each one calls `SaveFile` on the fake storage, and its
  ensures state the outcome and what storage holds afterwards.

`Join` reuses a trailing `/` of the directory, so `"/"` and `"testID.jpg"` give
`"/testID.jpg"`, as the happy-path test expects.

## Model

| member | source | states |
|---|---|---|
| `Ext.LastIndex` | upload_test.go:57-59 | the result is -1 or an index holding the character, and no later index holds it |
| `Ext.GetExt` | upload_test.go:57-59 | getExt returns a suffix of the name with no `.`: the whole name when it has no `.`, otherwise the part right after a `.` |
| `Ext.GetExtOfSplit` | upload_test.go:59 | only the last dot counts: `stem + "." + ext`, with no `.` in `ext`, has extension `ext` whatever `stem` holds |
| `Ext.GetExtDotted` | upload_test.go:57 | `"img.jpg"` gives `"jpg"` |
| `Ext.GetExtUndotted` | upload_test.go:58 | `"imgjpg"` gives `"imgjpg"` |
| `Ext.GetExtDoublyDotted` | upload_test.go:59 | `"img.gif.jpg"` gives `"jpg"` |
| `Formats.ExtMap` | upload_test.go:9-10 | after initExtMap the registry holds exactly jpg, png and gif, not `unknown`; each token selects its own format and back; no token contains a `.` |
| `Formats.SignaturesExclusive` | upload_test.go:21-40 | a stream carries the signature of at most one of JPEG, PNG and GIF |
| `Formats.MislabelledNeverDecodes` | upload_test.go:21-40 | with sound decoders, a stream carrying one format's signature never decodes as another format |
| `Formats.NopAndEmptyNeverDecode` | upload_test.go:21-40 | with sound decoders, neither `"nop"` nor an empty stream decodes under any format |
| `Storage.FileSystem.Dummy` | upload_test.go:74-78 | the fake file system starts empty, with no open handle, refuses no path and has unlimited space |
| `Storage.FileSystem.Create` | upload_test.go:78 | Create fails exactly for refused paths and then changes nothing; otherwise it returns a fresh open handle on an emptied file and keeps the handle invariant |
| `Storage.File.Write` | upload_test.go:72 | Write appends the bytes that fit and returns their count; it reports an error exactly when the handle is closed or the write is short |
| `Storage.File.Close` | upload_test.go:71 | Close releases the handle, keeps the handle invariant and leaves file contents unchanged; it errs only on a second close |
| `Upload.Join` | upload_test.go:47 | the path is the directory, then exactly one `/`, then the name; the directory's trailing `/` is not doubled, and an empty directory adds no `/` |
| `Upload.DestPath` | upload_test.go:42-50 | the destination starts with the directory and ends with `<id>.<format>`, the claimed format, after a `/` |
| `Upload.Validate` | upload_test.go:14-46 | content is accepted iff its token is registered, it decodes under that format and it fits the limit; NotSupported iff unregistered; DecodeFailed iff registered and undecodable |
| `Upload.UnknownFormatWins` | upload_test.go:14-18 | an unregistered token gives exactly NotSupported, whatever the content |
| `Upload.ZeroLimitIsUnlimited` | upload_test.go:43 | limit 0 never rejects for size |
| `Upload.GarbageFailsDecode` | upload_test.go:21-40 | for every registered token, `"nop"` and an empty stream fail with DecodeFailed |
| `Upload.MislabelledUploadRejected` | upload_test.go:21-40 | content carrying another registered format's signature (a PNG claimed as jpg) fails with DecodeFailed |
| `Upload.DestPathExt` | upload_test.go:42-50 | the saved path's getExt is the claimed format, for any format without a `.` |
| `Upload.SavedNameRevalidates` | upload_test.go:42-50 | accepted content validates again, with the same format, when the saved path's extension is taken as the claimed format |
| `Upload.DestPathOfHappyPath` | upload_test.go:47 | `"/"`, `"testID"` and `"jpg"` give exactly `"/testID.jpg"` |
| `Upload.ImageUpload.Init` | upload_test.go:9-12 | init installs the registry from initExtMap, the decoders and the storage capability |
| `Upload.ImageUpload.SaveFile` | upload_test.go:14-50 | a rejection returns its error and stores nothing; refused Create gives StorageFailed and stores nothing; otherwise the path holds what fit of the content, and the result is the path iff all of it fit; the handle it opened is closed and the set of open handles is as before |
| `Upload.ImageUpload.Persist` | upload_test.go:42-46 | the storage step: a refused path gives StorageFailed and changes nothing; otherwise the path holds the part of the content that fit, the result is the path exactly when all of it fit, and the handle is closed |
| `UploadTests.UnknownFormat` | upload_test.go:14-18 | `"nop"` as `"unknown"` yields exactly ErrFileNotSupported and stores nothing |
| `UploadTests.DecodeFail` | upload_test.go:21-40 | `"nop"` as jpg, png or gif yields DecodeFailed and stores nothing |
| `UploadTests.JpgHappyPath` | upload_test.go:42-50 | a decodable JPEG yields `"/testID.jpg"` with no error, and that file holds every byte |

## Left out

- Image decoding (JPEG, PNG, GIF) is done by Go's standard library, which is not part of this model. The decoders are opaque function values. The one fact assumed of them (`Sound`) is that each first checks its signature: `FF D8`, the eight-byte PNG signature, or `GIF87a`/`GIF89a`. The test image's bytes are not modelled; `JpgHappyPath` takes "the JPEG decoder accepts it" as a hypothesis.
- The reader is modelled as the byte sequence it yields. The stream position is not modelled, so "no bytes are read for an unsupported format" is not stated.
- Upload.Validate: a positive limit rejects content longer than the limit with SizeLimitExceeded, and this check comes after decoding, so oversized undecodable content gives DecodeFailed. A zero or negative limit means unlimited. The tests pass only 0, so the size conjunct of `Validate`'s contract and the decode-before-size order are a chosen rule; only `ZeroLimitIsUnlimited` rests on the tests.
- `Join` models the `"/"` case the test pins and the general "one separator" rule. Go's path cleaning (`..`, `.`, repeated slashes inside the directory) is not modelled.
- `GetExt` does not lower-case; the tests do not pin any case folding, and the implementation of `getExt` is not part of this model.
- Error values are reduced to their kind. Messages and wrapped causes are not modelled. The error from `Close` is ignored by `SaveFile`, as a deferred close would be.
- Storage.File.Close: the model's handle reports an error on a second Close, while `dummyFile.Close` always returns nil. `SaveFile` closes each handle once, so the pipeline is unaffected.
- Storage.File.Write: after Close the model's handle writes nothing and reports an error, while `dummyFile.Write` always returns the full length and nil. `SaveFile` never writes after closing.
- Swapping the package variable `fs` after `init`, concurrent calls and overwrites are not modelled. Real file-system I/O is replaced by the `FileSystem` class.
- Registry entries other than jpg, png and gif (for example a `jpeg` alias) are not visible in the tests and are not modelled.
