/**
 * `from_path` (src/http/mime_type.rs): the MIME type of a file, chosen by
 * the extension of the last segment of its URL, with a default file name
 * for URLs that end in `/`.
 */
module MimeTypes {
  import opened Wrappers
  import opened Bytes

  const SLASH: byte := 0x2F
  const DOT: byte := 0x2E

  /**
   * The text after the last `/` when it is not empty; otherwise, and when
   * there is no `/` at all, the default file name.
   */
  function FileName(url: seq<byte>, defaultName: Option<seq<byte>>): (r: Option<seq<byte>>)
    ensures SLASH !in url ==> r == defaultName
    ensures r != defaultName ==>
      && r.Some? && r.value != [] && SLASH !in r.value && |r.value| < |url|
      && url[|url| - |r.value| - 1] == SLASH && url[|url| - |r.value|..] == r.value
  {
    match LastIndexOf(url, SLASH)
    case Some(i) => if url[i + 1..] != [] then Some(url[i + 1..]) else defaultName
    case None => defaultName
  }

  /** The text after the last `.` of a file name; `None` when it has no `.`. */
  function Extension(name: seq<byte>): (r: Option<seq<byte>>)
    ensures r.None? <==> DOT !in name
    ensures r.Some? ==>
      DOT !in r.value && |r.value| < |name| && name == name[..|name| - |r.value| - 1] + [DOT] + r.value
  {
    match LastIndexOf(name, DOT)
    case Some(i) => Some(name[i + 1..])
    case None => None
  }

  /** `extension_from_path`. */
  function ExtensionFromPath(url: seq<byte>, defaultName: Option<seq<byte>>): (r: Option<seq<byte>>)
    ensures r.Some? ==> DOT !in r.value
    ensures r.None? <==> FileName(url, defaultName).None? || DOT !in FileName(url, defaultName).value
  {
    match FileName(url, defaultName)
    case Some(f) => Extension(f)
    case None => None
  }

  /** `htm` */
  const Htm: seq<byte> := [0x68, 0x74, 0x6D]
  /** `html` */
  const Html: seq<byte> := [0x68, 0x74, 0x6D, 0x6C]
  /** `txt` */
  const Txt: seq<byte> := [0x74, 0x78, 0x74]
  /** `css` */
  const Css: seq<byte> := [0x63, 0x73, 0x73]
  /** `md` */
  const Md: seq<byte> := [0x6D, 0x64]
  /** `jpg` */
  const Jpg: seq<byte> := [0x6A, 0x70, 0x67]
  /** `jpeg` */
  const Jpeg: seq<byte> := [0x6A, 0x70, 0x65, 0x67]
  /** `png` */
  const Png: seq<byte> := [0x70, 0x6E, 0x67]
  /** `gif` */
  const Gif: seq<byte> := [0x67, 0x69, 0x66]
  /** `js` */
  const Js: seq<byte> := [0x6A, 0x73]
  /** `mjs` */
  const Mjs: seq<byte> := [0x6D, 0x6A, 0x73]
  /** `xml` */
  const Xml: seq<byte> := [0x78, 0x6D, 0x6C]

  /** The extensions the table knows, compared byte for byte. */
  const KnownExtensions: set<seq<byte>> := {Htm, Html, Txt, Css, Md, Jpg, Jpeg, Png, Gif, Js, Mjs, Xml}

  const OctetStream: string := "application/octet-stream"

  /** The table of `from_path`, by extension. */
  function TypeOf(ext: Option<seq<byte>>): (t: string)
    ensures t == OctetStream <==> ext.None? || ext.value !in KnownExtensions
  {
    if ext.None? then OctetStream
    else
      var e := ext.value;
      if e == Htm || e == Html then "text/html"
      else if e == Txt then "text/plain"
      else if e == Css then "text/css"
      else if e == Md then "text/markdown"
      else if e == Jpg || e == Jpeg then "image/jpeg"
      else if e == Png then "image/png"
      else if e == Gif then "image/gif"
      else if e == Js || e == Mjs then "application/javascript"
      else if e == Xml then "application/xml"
      else OctetStream
  }

  /** `from_path`. */
  function FromPath(url: seq<byte>, defaultName: Option<seq<byte>>): (t: string)
    ensures t != OctetStream ==>
      && FileName(url, defaultName).Some?
      && Extension(FileName(url, defaultName).value).Some?
      && Extension(FileName(url, defaultName).value).value in KnownExtensions
  {
    TypeOf(ExtensionFromPath(url, defaultName))
  }

  /** The table is case-sensitive: `JPG` is not `jpg`. */
  lemma CaseSensitive()
    ensures UpperAll(Jpg) !in KnownExtensions && TypeOf(Some(UpperAll(Jpg))) == OctetStream
  {
    var upper := UpperAll(Jpg);
    assert upper[0] == 0x4A;
    assert upper !in KnownExtensions;
  }

  /** The last `/` of a URL made of a directory, `/` and a name without `/` is the one before the name. */
  lemma LastSlash(dir: seq<byte>, name: seq<byte>)
    requires SLASH !in name
    ensures LastIndexOf(dir + [SLASH] + name, SLASH) == Some(|dir|)
  {
    var url := dir + [SLASH] + name;
    assert url[|dir| + 1..] == name;
    LastIndexOfAt(url, SLASH, |dir|);
  }

  /**
   * The file name is the last segment of the URL when that is not empty,
   * else the default; a URL without `/` also takes the default.
   */
  lemma FileNameOf(dir: seq<byte>, name: seq<byte>, defaultName: Option<seq<byte>>)
    requires SLASH !in name
    ensures FileName(dir + [SLASH] + name, defaultName) == if name != [] then Some(name) else defaultName
    ensures SLASH !in dir ==> FileName(dir, defaultName) == defaultName
  {
    LastSlash(dir, name);
    assert (dir + [SLASH] + name)[|dir| + 1..] == name;
  }

  /** Dots in directory names do not count: only the last segment's extension does. */
  lemma DirectoryDotsIgnored(dir: seq<byte>, name: seq<byte>, defaultName: Option<seq<byte>>)
    requires SLASH !in name && name != []
    ensures ExtensionFromPath(dir + [SLASH] + name, defaultName) == Extension(name)
  {
    FileNameOf(dir, name, defaultName);
  }

  /** The extension after the last `.` of a name is the text after it. */
  lemma ExtensionOf(stem: seq<byte>, ext: seq<byte>)
    requires DOT !in ext
    ensures Extension(stem + [DOT] + ext) == Some(ext)
  {
    var name := stem + [DOT] + ext;
    assert name[|stem| + 1..] == ext;
    LastIndexOfAt(name, DOT, |stem|);
  }

  /** `foo` */
  const Foo: seq<byte> := [0x66, 0x6F, 0x6F]
  /** `bar` */
  const Bar: seq<byte> := [0x62, 0x61, 0x72]
  /** `index` */
  const Index: seq<byte> := [0x69, 0x6E, 0x64, 0x65, 0x78]
  /** `/dir.lala` */
  const DirLala: seq<byte> := [SLASH, 0x64, 0x69, 0x72, DOT, 0x6C, 0x61, 0x6C, 0x61]

  /** The bytes of the example names hold no `/`, and `foo` holds no `.`. */
  lemma ExampleNames()
    ensures SLASH !in Foo + [DOT] + Jpg && SLASH !in Foo + [DOT] + Bar && SLASH !in Foo
    ensures DOT !in Jpg && DOT !in Bar && DOT !in Html && DOT !in Foo
    ensures Bar !in KnownExtensions
  {
  }

  /** `foo.jpg` below any directory is `image/jpeg`. */
  lemma JpegBelow(dir: seq<byte>)
    ensures FromPath(dir + [SLASH] + (Foo + [DOT] + Jpg), None) == "image/jpeg"
  {
    ExampleNames();
    DirectoryDotsIgnored(dir, Foo + [DOT] + Jpg, None);
    ExtensionOf(Foo, Jpg);
    JpgType();
  }

  lemma JpgType()
    ensures TypeOf(Some(Jpg)) == "image/jpeg"
  {
    assert Jpg[0] != Htm[0] && Jpg[0] != Txt[0] && Jpg[0] != Css[0] && Jpg[0] != Md[0];
  }

  /** `/foo.jpg` is `image/jpeg`, and so is `/dir.lala/foo.jpg`: the dot in the directory does not count. */
  lemma JpegExamples()
    ensures FromPath([] + [SLASH] + (Foo + [DOT] + Jpg), None) == "image/jpeg"
    ensures FromPath(DirLala + [SLASH] + (Foo + [DOT] + Jpg), None) == "image/jpeg"
  {
    JpegBelow([]);
    JpegBelow(DirLala);
  }

  /** `/` with the default name `index.html` is `text/html`; `/foo` with it has no extension. */
  lemma DefaultNameExamples()
    ensures FromPath([] + [SLASH] + [], Some(Index + [DOT] + Html)) == "text/html"
    ensures FromPath([] + [SLASH] + Foo, Some(Index + [DOT] + Html)) == OctetStream
  {
    ExampleNames();
    FileNameOf([], [], Some(Index + [DOT] + Html));
    ExtensionOf(Index, Html);
    DirectoryDotsIgnored([], Foo, Some(Index + [DOT] + Html));
  }

  /** `/foo.bar` has an extension the table does not know. */
  lemma UnknownExample()
    ensures FromPath([] + [SLASH] + (Foo + [DOT] + Bar), None) == OctetStream
  {
    ExampleNames();
    DirectoryDotsIgnored([], Foo + [DOT] + Bar, None);
    ExtensionOf(Foo, Bar);
  }
}
