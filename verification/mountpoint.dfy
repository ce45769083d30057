/** The static-file mountpoint of include/mountpoint.hpp: a URL prefix
    bound to a directory, serving files with a content type picked from
    the file extension. */
module Mountpoint {
  import opened Types
  import Paths

  /** A mountpoint: the URL prefix `point_` (held as an owned string) and
      the directory `path_`. */
  datatype Mount = Mount(point: string, root: string)

  /** What `read_file` yields for each path it is asked for; a path that is
      absent makes it throw (missing file, permission, read error). */
  type Files = map<string, seq<Byte>>

  /** `path.substr(0, point.size()) == point`. */
  predicate IsPrefix(point: string, path: string)
  {
    |point| <= |path| && path[..|point|] == point
  }

  /** The request path after the prefix with at most one leading `/`
      removed. An empty remainder is kept as it is. */
  function RelativePath(point: string, path: string): (rel: string)
    requires IsPrefix(point, path)
    ensures path == point + rel || path == point + "/" + rel
    ensures (|path| > |point| && path[|point|] == '/') <==> path == point + "/" + rel
  {
    var suffix := path[|point|..];
    assert path == point + suffix;
    if suffix != [] && suffix[0] == '/' then
      assert suffix == "/" + suffix[1..];
      suffix[1..]
    else suffix
  }

  /** The text after the last `.` of the relative path (directories
      included), or "txt" when it has none. */
  function ExtensionOf(rel: string): (ext: string)
    ensures '.' !in rel ==> ext == "txt"
    ensures '.' in rel ==> |ext| < |rel| && rel[|rel| - |ext| - 1] == '.' && rel[|rel| - |ext|..] == ext
    ensures '.' in rel ==> '.' !in ext
  {
    var k := Paths.FindLast(rel, '.');
    if k < 0 then "txt"
    else
      var ext := rel[k + 1..];
      assert forall i :: 0 <= i < |ext| ==> ext[i] == rel[k + 1 + i];
      ext
  }

  /** A content type and its parameter (empty for none). */
  datatype MimeType = MimeType(mime: string, params: string)

  /** The type served for an unknown extension. */
  const PlainText: MimeType := MimeType("text/plain", "charset=utf-8")

  /** The extension table, compared exactly and case-sensitively. */
  const MimeTable: map<string, MimeType> := map[
    "html" := MimeType("text/html", "charset=utf-8"),
    "htm" := MimeType("text/html", "charset=utf-8"),
    "js" := MimeType("text/javascript", ""),
    "mjs" := MimeType("text/javascript", ""),
    "css" := MimeType("text/css", ""),
    "png" := MimeType("image/png", ""),
    "jpg" := MimeType("image/jpeg", ""),
    "jpeg" := MimeType("image/jpeg", "")
  ]

  /** `mime_type_for`, as the chain of comparisons of the C++ code; it
      agrees with the table. */
  function MimeTypeFor(ext: string): (r: MimeType)
    ensures ext in MimeTable ==> r == MimeTable[ext]
    ensures ext !in MimeTable ==> r == PlainText
  {
    if ext == "html" || ext == "htm" then MimeType("text/html", "charset=utf-8")
    else if ext == "js" || ext == "mjs" then MimeType("text/javascript", "")
    else if ext == "css" then MimeType("text/css", "")
    else if ext == "png" then MimeType("image/png", "")
    else if ext == "jpg" || ext == "jpeg" then MimeType("image/jpeg", "")
    else PlainText
  }

  predicate HasUpper(s: string)
  {
    exists i :: 0 <= i < |s| && 'A' <= s[i] <= 'Z'
  }

  /** The comparison is case-sensitive: an extension with an upper-case
      letter, such as "HTML" or "Js", is never recognised and is served as
      plain text. */
  lemma ExtensionCaseSensitive(ext: string)
    requires HasUpper(ext)
    ensures MimeTypeFor(ext) == PlainText
  {
    var i :| 0 <= i < |ext| && 'A' <= ext[i] <= 'Z';
    if ext in MimeTable {
      assert false;
    }
  }

  /** The file a request is served from: `path_ / relative path`. */
  function ResolvedPath(m: Mount, path: string): string
    requires IsPrefix(m.point, path)
  {
    Paths.Join(m.root, RelativePath(m.point, path))
  }

  /** Whether the mountpoint handled the request, and the writes it made
      to the client. */
  datatype Served = Served(handled: bool, writes: seq<Write>)

  /** `mountpoint::handle`. A matching prefix always counts as handled:
      either one 200 header announcing the file's size followed by its
      bytes, or, when the read throws, one 404 page. */
  function Handle(m: Mount, files: Files, path: string): (r: Served)
    ensures !IsPrefix(m.point, path) ==> !r.handled && r.writes == []
    ensures IsPrefix(m.point, path) ==> r.handled && |r.writes| >= 1
    ensures IsPrefix(m.point, path) ==>
      var p := ResolvedPath(m, path);
      var mt := MimeTypeFor(ExtensionOf(RelativePath(m.point, path)));
      && (p in files ==> r.writes == [Header(200, mt.mime, mt.params, |files[p]|), Body(files[p])])
      && (p !in files ==> r.writes == [SimpleHtml(404, "")])
  {
    if IsPrefix(m.point, path) then
      var rel := RelativePath(m.point, path);
      var mt := MimeTypeFor(ExtensionOf(rel));
      var p := Paths.Join(m.root, rel);
      if p in files then
        var bytes := files[p];
        Served(true, [Header(200, mt.mime, mt.params, |bytes|), Body(bytes)])
      else
        Served(true, [SimpleHtml(404, "")])
    else
      Served(false, [])
  }

  /** A successful read announces exactly the number of bytes it sends,
      and a 404 page is never preceded by a 200 header. */
  lemma ContentLengthMatchesBody(m: Mount, files: Files, path: string)
    ensures var r := Handle(m, files, path);
      && (forall i :: 0 <= i < |r.writes| && r.writes[i].Header? ==>
            i + 1 < |r.writes| && r.writes[i + 1] == Body(r.writes[i + 1].bytes)
            && r.writes[i].contentLength == |r.writes[i + 1].bytes|)
      && ((exists i :: 0 <= i < |r.writes| && r.writes[i].SimpleHtml?) ==>
            forall j :: 0 <= j < |r.writes| ==> !r.writes[j].Header?)
  {
  }

  /** Only one leading `/` is stripped, so a request whose path has a
      doubled slash right after the prefix resolves to the absolute path
      after the first slash, which replaces the directory when joined: the
      file is read from outside the mount root. */
  lemma DoubledSlashLeavesRoot(m: Mount, path: string)
    requires IsPrefix(m.point, path)
    requires |path| >= |m.point| + 2 && path[|m.point|] == '/' && path[|m.point| + 1] == '/'
    ensures ResolvedPath(m, path) == path[|m.point| + 1..]
    ensures Paths.IsAbsolute(ResolvedPath(m, path))
  {
    var rel := RelativePath(m.point, path);
    assert path == m.point + "/" + rel;
    assert rel == path[|m.point| + 1..];
  }
}
