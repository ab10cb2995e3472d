/**
 * The mapping of a request URL to a file of the served directory
 * (src/app/dir.rs).
 */
module StaticDirectories {
  import opened Wrappers
  import opened Bytes
  import opened Paths

  /**
   * `request_url.get(1..)`: the URL without its first byte, unless the
   * URL is empty or its second byte continues a multi-byte character
   * (the URL being UTF-8).
   */
  function AfterFirstByte(url: seq<byte>): (r: Option<seq<byte>>)
    ensures r.Some? ==> |url| >= 1 && r.value == url[1..]
    ensures r.None? <==> url == [] || (|url| > 1 && Tail(url[1]))
  {
    if url == [] || (|url| > 1 && Tail(url[1])) then None else Some(url[1..])
  }

  /**
   * `StaticDirectoryHandler::file_path`: the URL after its first byte
   * names the file; no such name (the URL "/", say) opens the index file,
   * a name ending in '/' opens the index file in that directory, and
   * any other name is opened as it is. The path checks decide, and
   * their error is passed on.
   */
  function FilePath(url: seq<byte>, indexFile: seq<byte>): (r: Result<RelativePath, PathError>)
    ensures var rel := AfterFirstByte(url);
      && (rel.None? || rel.value == [] ==> r == SubPath(indexFile))
      && (rel.Some? && rel.value != [] && rel.value[|rel.value| - 1] == SLASH ==> r == SubDirWithFile(rel.value, indexFile))
      && (rel.Some? && rel.value != [] && rel.value[|rel.value| - 1] != SLASH ==> r == SubPath(rel.value))
    ensures r.Ok? ==> IsSafeRelativePath(Joined(r.value))
  {
    var rel := AfterFirstByte(url);
    var path :=
      if rel.None? || rel.value == [] then SubPath(indexFile)
      else if rel.value[|rel.value| - 1] == SLASH then SubDirWithFile(rel.value, indexFile)
      else SubPath(rel.value);
    if path.Ok? then JoinedIsSafe(path.value); path else path
  }
}
