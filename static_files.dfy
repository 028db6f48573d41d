/** The static-file side of the web server (main/webServer.c): the server
    context that keeps the mount point, the file path built for a request,
    and the MIME type chosen from the path's suffix. Opening, reading and
    streaming the file belong to the file system and the HTTP library and
    are outside the model; whether the path opens is a parameter. */
module StaticFiles {
  import opened CString

  /** `ESP_VFS_PATH_MAX` of ESP-IDF's esp_vfs.h. */
  const ESP_VFS_PATH_MAX: nat := 15
  /** `FILE_PATH_MAX`, the size of the request's `filepath` buffer. */
  const FILE_PATH_MAX: nat := ESP_VFS_PATH_MAX + 128

  /** `WEB_MOUNT_POINT` (main/ProjectConfig.h), the base path the program starts the server with. */
  const WEB_MOUNT_POINT: string := "/www"

  const INDEX_FILE: string := "/index.html"

  /** `server_context_t`: only the base path matters here (the scratch buffer serves the streaming). */
  datatype ServerContext = ServerContext(basePath: string)

  /** `start_web_server` copies its base path into the context with `strlcpy`
      into `base_path[ESP_VFS_PATH_MAX + 1]`. */
  method NewServerContext(basePath: string) returns (ctx: ServerContext)
    requires NoNul(basePath)
    ensures ctx.basePath == Prefix(basePath, ESP_VFS_PATH_MAX)
  {
    var buffer := new char[ESP_VFS_PATH_MAX + 1];
    var _ := StrLCpy(buffer, basePath);
    var n := StrLenOf(buffer);
    ctx := ServerContext(buffer[..n]);
  }

  // ---------------------------------------------------------------------
  // File path

  /** What is appended to the base path: the index page for a URI ending in `/`, else the URI. */
  function RequestedFile(uri: string): (f: string)
    requires |uri| > 0
    ensures f == INDEX_FILE || f == uri
    ensures uri[|uri| - 1] != '/' ==> f == uri
    ensures |f| > 0 && f[|f| - 1] != '/'
  {
    if uri[|uri| - 1] == '/' then INDEX_FILE else uri
  }

  /** The path `common_get_handler` opens: base path then requested file,
      cut to what the `filepath` buffer holds. */
  function FilePath(basePath: string, uri: string): (p: string)
    requires |uri| > 0
    ensures |p| <= FILE_PATH_MAX - 1 && p <= basePath + RequestedFile(uri)
  {
    Prefix(basePath + RequestedFile(uri), FILE_PATH_MAX - 1)
  }

  /** The path always fits the buffer; it is the whole concatenation when
      that fits, and otherwise its first `FILE_PATH_MAX - 1` characters. */
  lemma FilePathShape(basePath: string, uri: string)
    requires |uri| > 0
    ensures |FilePath(basePath, uri)| <= FILE_PATH_MAX - 1
    ensures FilePath(basePath, uri) <= basePath + RequestedFile(uri)
    ensures |basePath| + |RequestedFile(uri)| <= FILE_PATH_MAX - 1 ==>
              FilePath(basePath, uri) == basePath + RequestedFile(uri)
    ensures |basePath| + |RequestedFile(uri)| > FILE_PATH_MAX - 1 ==> |FilePath(basePath, uri)| == FILE_PATH_MAX - 1
  {
  }

  /** Every URI that ends in `/` is served the same index page, whatever directory it names. */
  lemma DirectoryUrisShareIndex(basePath: string, uri1: string, uri2: string)
    requires |uri1| > 0 && |uri2| > 0 && uri1[|uri1| - 1] == '/' && uri2[|uri2| - 1] == '/'
    ensures FilePath(basePath, uri1) == FilePath(basePath, uri2) == Prefix(basePath + INDEX_FILE, FILE_PATH_MAX - 1)
  {
  }

  /** The path construction of `common_get_handler`, `strlcpy` then `strlcat` into `filepath`. */
  method BuildFilePath(ctx: ServerContext, uri: string) returns (filepath: string)
    requires NoNul(ctx.basePath) && NoNul(uri) && |uri| > 0
    ensures filepath == FilePath(ctx.basePath, uri)
    ensures |filepath| <= FILE_PATH_MAX - 1
  {
    var buffer := new char[FILE_PATH_MAX];
    var _ := StrLCpy(buffer, ctx.basePath);
    assert CStr(buffer[..]) == Prefix(ctx.basePath, FILE_PATH_MAX - 1);
    if uri[|uri| - 1] == '/' {
      assert NoNul(INDEX_FILE);
      var _ := StrLCat(buffer, INDEX_FILE);
    } else {
      var _ := StrLCat(buffer, uri);
    }
    PrefixOfPrefixedAppend(ctx.basePath, RequestedFile(uri), FILE_PATH_MAX - 1);
    var n := StrLenOf(buffer);
    filepath := buffer[..n];
  }

  // ---------------------------------------------------------------------
  // Content type

  const HTML_EXT: string := ".html"

  /** The suffix checks of `set_content_type_from_file`, in the order they run. */
  const ContentTypes: seq<(string, string)> := [
    (HTML_EXT, "text/html"),
    (".js", "application/javascript"),
    (".css", "text/css"),
    (".png", "image/png"),
    (".ico", "image/x-icon"),
    (".svg", "text/xml")
  ]

  const DEFAULT_TYPE: string := "text/plain"

  /** `CHECK_FILE_EXTENSION(filename, ext)`: the last `|ext|` characters equal
      `ext` up to case. The macro indexes before the start of a name shorter
      than `ext`, so it is only defined on long enough names. */
  predicate HasExtension(filename: string, ext: string)
    requires |filename| >= |ext|
    ensures filename[|filename| - |ext|..] == ext ==> HasExtension(filename, ext)
    ensures HasExtension(filename, ext) <==>
              forall i :: 0 <= i < |ext| ==> SameIgnoringCase(filename[|filename| - |ext| + i], ext[i])
  {
    var tail := filename[|filename| - |ext|..];
    assert forall i :: 0 <= i < |ext| ==> tail[i] == filename[|filename| - |ext| + i];
    EqualIgnoringCase(tail, ext)
  }

  /** `set_content_type_from_file`: the type that goes with the first matching suffix. */
  function ContentType(filepath: string): (t: string)
    requires |filepath| >= |HTML_EXT|
    ensures t == DEFAULT_TYPE || exists k :: 0 <= k < |ContentTypes| && t == ContentTypes[k].1
  {
    assert ContentTypes[0].1 == "text/html" && ContentTypes[1].1 == "application/javascript"
        && ContentTypes[2].1 == "text/css" && ContentTypes[3].1 == "image/png"
        && ContentTypes[4].1 == "image/x-icon" && ContentTypes[5].1 == "text/xml";
    if HasExtension(filepath, ".html") then "text/html"
    else if HasExtension(filepath, ".js") then "application/javascript"
    else if HasExtension(filepath, ".css") then "text/css"
    else if HasExtension(filepath, ".png") then "image/png"
    else if HasExtension(filepath, ".ico") then "image/x-icon"
    else if HasExtension(filepath, ".svg") then "text/xml"
    else DEFAULT_TYPE
  }

  /** Entry `k` is the first entry of the table whose suffix the name has. */
  predicate FirstMatchAt(table: seq<(string, string)>, filepath: string, k: int)
    requires forall k :: 0 <= k < |table| ==> |table[k].0| <= |filepath|
  {
    0 <= k < |table| && HasExtension(filepath, table[k].0)
    && forall k' :: 0 <= k' < k ==> !HasExtension(filepath, table[k'].0)
  }

  /** The reference reading of the table: the entry of the first suffix that matches, else the default. */
  function FirstMatchingType(table: seq<(string, string)>, filepath: string): (t: string)
    requires forall k :: 0 <= k < |table| ==> |table[k].0| <= |filepath|
    ensures t == DEFAULT_TYPE || exists k :: 0 <= k < |table| && t == table[k].1
  {
    if table == [] then DEFAULT_TYPE
    else if HasExtension(filepath, table[0].0) then table[0].1
    else
      var t := FirstMatchingType(table[1..], filepath);
      assert forall k :: 1 <= k < |table| ==> table[k] == table[1..][k - 1];
      t
  }

  /** The table reading gives the default when no suffix matches. */
  lemma {:induction false} FirstMatchingTypeNoMatch(table: seq<(string, string)>, filepath: string)
    requires forall k :: 0 <= k < |table| ==> |table[k].0| <= |filepath|
    requires forall k :: 0 <= k < |table| ==> !HasExtension(filepath, table[k].0)
    ensures FirstMatchingType(table, filepath) == DEFAULT_TYPE
    decreases |table|
  {
    if table != [] {
      var rest := table[1..];
      assert forall k :: 0 <= k < |rest| ==> rest[k] == table[k + 1];
      FirstMatchingTypeNoMatch(rest, filepath);
    }
  }

  /** When some suffix matches, the table reading gives the type of the first entry whose suffix matches. */
  lemma {:induction false} FirstMatchingTypeIsFirst(table: seq<(string, string)>, filepath: string, k: int)
    requires forall k :: 0 <= k < |table| ==> |table[k].0| <= |filepath|
    requires 0 <= k < |table| && HasExtension(filepath, table[k].0)
    ensures exists j :: FirstMatchAt(table, filepath, j) && FirstMatchingType(table, filepath) == table[j].1
    decreases |table|
  {
    if HasExtension(filepath, table[0].0) {
      assert FirstMatchAt(table, filepath, 0);
    } else {
      var rest := table[1..];
      assert rest[k - 1] == table[k];
      FirstMatchingTypeIsFirst(rest, filepath, k - 1);
      var j :| FirstMatchAt(rest, filepath, j) && FirstMatchingType(rest, filepath) == rest[j].1;
      FirstMatchAtShift(table, filepath, j);
      assert rest[j] == table[j + 1];
    }
  }

  /** Past an entry that does not match, the first match in the rest of the table is the first match. */
  lemma FirstMatchAtShift(table: seq<(string, string)>, filepath: string, j: int)
    requires table != [] && forall k :: 0 <= k < |table| ==> |table[k].0| <= |filepath|
    requires !HasExtension(filepath, table[0].0) && FirstMatchAt(table[1..], filepath, j)
    ensures FirstMatchAt(table, filepath, j + 1)
  {
    forall k' | 0 <= k' < j + 1 ensures !HasExtension(filepath, table[k'].0) {
      if k' > 0 { assert table[k'] == table[1..][k' - 1]; }
    }
    assert table[j + 1] == table[1..][j];
  }

  lemma FirstMatchingTypeStep(table: seq<(string, string)>, filepath: string)
    requires table != [] && forall k :: 0 <= k < |table| ==> |table[k].0| <= |filepath|
    ensures FirstMatchingType(table, filepath)
         == if HasExtension(filepath, table[0].0) then table[0].1 else FirstMatchingType(table[1..], filepath)
  {
  }

  /** The if-chain and the table agree: the type is that of the first suffix that matches. */
  lemma {:induction false} ContentTypeIsFirstMatch(filepath: string)
    requires |filepath| >= |HTML_EXT|
    ensures ContentType(filepath) == FirstMatchingType(ContentTypes, filepath)
  {
    ContentTypesFit(filepath);
    var f := filepath;
    var t0 := ContentTypes;
    var t1, t2, t3, t4, t5 := t0[1..], t0[2..], t0[3..], t0[4..], t0[5..];
    assert t1 == t0[1..] && t2 == t1[1..] && t3 == t2[1..] && t4 == t3[1..] && t5 == t4[1..] && t5[1..] == [];
    assert t0[0] == (".html", "text/html") && t1[0] == (".js", "application/javascript")
        && t2[0] == (".css", "text/css") && t3[0] == (".png", "image/png")
        && t4[0] == (".ico", "image/x-icon") && t5[0] == (".svg", "text/xml");
    FirstMatchingTypeStep(t0, f);
    FirstMatchingTypeStep(t1, f);
    FirstMatchingTypeStep(t2, f);
    FirstMatchingTypeStep(t3, f);
    FirstMatchingTypeStep(t4, f);
    FirstMatchingTypeStep(t5, f);
  }

  /** Every suffix of the table fits in a path the checks accept, and no table type is the default. */
  lemma ContentTypesFit(filepath: string)
    requires |filepath| >= |HTML_EXT|
    ensures forall k :: 0 <= k < |ContentTypes| ==> |ContentTypes[k].0| <= |filepath| && ContentTypes[k].1 != DEFAULT_TYPE
  {
    var t := ContentTypes;
    assert |t[0].1| != |DEFAULT_TYPE| && |t[1].1| != |DEFAULT_TYPE| && |t[2].1| != |DEFAULT_TYPE|
        && |t[3].1| != |DEFAULT_TYPE| && |t[4].1| != |DEFAULT_TYPE| && |t[5].1| != |DEFAULT_TYPE|;
  }

  /** In a table none of whose types is the default, the default is chosen exactly when no suffix matches. */
  lemma FirstMatchingDefaultIffNoMatch(table: seq<(string, string)>, filepath: string)
    requires forall k :: 0 <= k < |table| ==> |table[k].0| <= |filepath|
    requires forall k :: 0 <= k < |table| ==> table[k].1 != DEFAULT_TYPE
    ensures FirstMatchingType(table, filepath) == DEFAULT_TYPE
        <==> forall k :: 0 <= k < |table| ==> !HasExtension(filepath, table[k].0)
  {
    if exists k :: 0 <= k < |table| && HasExtension(filepath, table[k].0) {
      var k :| 0 <= k < |table| && HasExtension(filepath, table[k].0);
      FirstMatchingTypeIsFirst(table, filepath, k);
    } else {
      FirstMatchingTypeNoMatch(table, filepath);
    }
  }

  /** The default type is chosen exactly when no suffix of the table matches. */
  lemma ContentTypeDefaultIffNoMatch(filepath: string)
    requires |filepath| >= |HTML_EXT|
    ensures ContentType(filepath) == DEFAULT_TYPE
        <==> forall k :: 0 <= k < |ContentTypes| ==> !HasExtension(filepath, ContentTypes[k].0)
  {
    ContentTypeIsFirstMatch(filepath);
    ContentTypesFit(filepath);
    FirstMatchingDefaultIffNoMatch(ContentTypes, filepath);
  }

  lemma HasExtensionIgnoresCase(filename: string, ext: string)
    requires |filename| >= |ext|
    ensures HasExtension(Lower(filename), ext) == HasExtension(filename, ext)
  {
    var k := |filename| - |ext|;
    assert Lower(filename)[k..] == Lower(filename[k..]);
    LowerIdempotent(filename[k..]);
  }

  /** The suffix test ignores case, so the content type does too. */
  lemma ContentTypeIgnoresCase(filepath: string)
    requires |filepath| >= |HTML_EXT|
    ensures ContentType(Lower(filepath)) == ContentType(filepath)
  {
    HasExtensionIgnoresCase(filepath, ".html");
    HasExtensionIgnoresCase(filepath, ".js");
    HasExtensionIgnoresCase(filepath, ".css");
    HasExtensionIgnoresCase(filepath, ".png");
    HasExtensionIgnoresCase(filepath, ".ico");
    HasExtensionIgnoresCase(filepath, ".svg");
  }

  /** What `common_get_handler` answers before any file content is read. */
  datatype FileResponse =
    | ServerError(message: string)              // 500, the file did not open
    | Serving(path: string, contentType: string) // the file opened; its chunks follow

  /** `common_get_handler` up to the start of the chunk loop; `opens` says
      whether the file system opens the path. */
  method CommonGetHandler(ctx: ServerContext, uri: string, opens: string -> bool) returns (resp: FileResponse)
    requires NoNul(ctx.basePath) && NoNul(uri) && |uri| > 0
    requires |FilePath(ctx.basePath, uri)| >= |HTML_EXT|
    ensures !opens(FilePath(ctx.basePath, uri)) <==> resp == ServerError("Failed to read existing file")
    ensures opens(FilePath(ctx.basePath, uri)) ==>
              resp == Serving(FilePath(ctx.basePath, uri), ContentType(FilePath(ctx.basePath, uri)))
  {
    var filepath := BuildFilePath(ctx, uri);
    if !opens(filepath) {
      resp := ServerError("Failed to read existing file");
    } else {
      resp := Serving(filepath, ContentType(filepath));
    }
  }

  /** With the program's mount point every built path is long enough for the suffix checks. */
  lemma MountPointPathsHaveRoom(uri: string)
    requires |uri| > 0
    ensures |FilePath(WEB_MOUNT_POINT, uri)| >= |HTML_EXT|
  {
  }
}
