/**
 * Path handling of the plugin: the path normalisation done when a `Messages`
 * object is built, Node's `path.parse` as the assembler uses it, and the path
 * handed to the loader.
 */
module Paths {
  import opened Wrappers
  import opened Text

  /**
   * The app-root-relative path of the compiled file: the first occurrence of the
   * working directory is removed, then one leading separator, and on platforms
   * whose separator is not `/` every separator becomes `/`.
   */
  function NormaliseFilename(filename: string, cwd: string, separator: char): (r: string)
    ensures |r| <= |filename|
    ensures separator != '/' ==> forall i :: 0 <= i < |r| ==> r[i] != separator
  {
    var relative := RemoveFirst(filename, cwd);
    var unrooted := if |relative| > 0 && relative[0] == separator then relative[1..] else relative;
    if separator != '/' then ReplaceChar(unrooted, separator, '/') else unrooted
  }

  /** A file under the working directory gets the path below it, written with `/`. */
  lemma UnderWorkingDirectory(cwd: string, separator: char, rel: string)
    ensures NormaliseFilename(cwd + [separator] + rel, cwd, separator)
         == if separator != '/' then ReplaceChar(rel, separator, '/') else rel
  {
    var filename := cwd + [separator] + rel;
    assert filename[0..|cwd|] == cwd;
    assert OccursAt(filename, cwd, 0);
    var i := FindFirst(filename, cwd).value;
    assert i == 0;
    assert RemoveFirst(filename, cwd) == [separator] + rel;
    assert ([separator] + rel)[1..] == rel;
  }

  /** A filename not containing the working directory only loses one leading separator. */
  lemma OutsideWorkingDirectory(filename: string, cwd: string)
    requires forall j: nat :: !OccursAt(filename, cwd, j)
    ensures NormaliseFilename(filename, cwd, '/')
         == if |filename| > 0 && filename[0] == '/' then filename[1..] else filename
  {
  }

  /** The two parts of Node's `path.parse` result that the plugin reads. */
  datatype ParsedPath = ParsedPath(dir: string, name: string)

  /**
   * Node's POSIX `path.parse` for a path without trailing separators: `dir` is
   * everything before the last `/` (`/` itself for a file in the root), `name` the
   * last component without its extension, where the extension starts at the
   * component's last `.` unless that dot is its first character or the component
   * is `..`.
   */
  function ParsePath(path: string): (p: ParsedPath)
  {
    var slash := LastIndexOf(path, '/');
    var dir := match slash
      case None => ""
      case Some(i) => if i == 0 then "/" else path[..i];
    var base := match slash
      case None => path
      case Some(i) => path[i + 1..];
    var dot := LastIndexOf(base, '.');
    var name := if dot.None? || dot.value == 0 || base == ".." then base else base[..dot.value];
    ParsedPath(dir, name)
  }

  /** The last component of `path`. */
  function BaseName(path: string): string
  {
    match LastIndexOf(path, '/')
    case None => path
    case Some(i) => path[i + 1..]
  }

  /** The parsed `dir` is everything before the last `/` (`/` itself for a file in the root), the rest is the base name. */
  lemma ParsePathDir(path: string)
    ensures var p := ParsePath(path);
      var b := BaseName(path);
      && '/' !in b
      && |b| <= |path| && path[|path| - |b|..] == b
      && (|b| == |path| ==> p.dir == "")
      && (|b| < |path| ==>
            && path[|path| - |b| - 1] == '/'
            && p.dir == if |b| + 1 == |path| then "/" else path[..|path| - |b| - 1])
  {
    match LastIndexOf(path, '/')
    case None =>
    case Some(i) =>
      assert BaseName(path) == path[i + 1..];
  }

  /**
   * The parsed `name` is the base name cut at its last `.`, and the cut happens exactly
   * when the base has a `.` after its first character and is not `..`.
   */
  lemma ParsePathName(path: string)
    ensures var p := ParsePath(path);
      var b := BaseName(path);
      && |p.name| <= |b| && b[..|p.name|] == p.name && '/' !in p.name
      && (p.name == b || (|p.name| > 0 && b[|p.name|] == '.' && '.' !in b[|p.name| + 1..]))
      && (p.name != b <==> (exists i :: 0 < i < |b| && b[i] == '.') && b != "..")
  {
    var b := BaseName(path);
    assert ParsePath(path).name
        == var dot := LastIndexOf(b, '.'); if dot.None? || dot.value == 0 || b == ".." then b else b[..dot.value];
  }

  /** The path handed to the loader for a directory entry. */
  function LoaderPath(dir: string, entryName: string): string
  {
    if |dir| > 0 then dir + "/" + entryName else entryName
  }
}
