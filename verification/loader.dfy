/** Choosing a reader by file extension, with the extension split off the
    path the way `os.path.splitext` does on POSIX systems. */
module Loader {
  import opened Wrappers
  import opened Encoding
  import opened NonParser

  /** Index of the last `ch` in `s`, or -1. */
  function RFind(s: string, ch: char): (i: int)
    ensures -1 <= i < |s|
    ensures i >= 0 ==> s[i] == ch
    ensures forall j :: i < j < |s| ==> s[j] != ch
  {
    if |s| == 0 then -1
    else if s[|s| - 1] == ch then |s| - 1
    else RFind(s[..|s| - 1], ch)
  }

  lemma RFindIs(s: string, ch: char, d: nat)
    requires d < |s| && s[d] == ch
    requires forall j :: d < j < |s| ==> s[j] != ch
    ensures RFind(s, ch) == d
  {
  }

  /** `os.path.splitext(path)`: the extension runs from the last dot of the
      last path component, provided some character of that component before
      the dot is not itself a dot; otherwise there is no extension. */
  function SplitExt(path: string): (r: (string, string))
    ensures r.0 + r.1 == path
    ensures r.1 == "" || (r.1[0] == '.' && '/' !in r.1 && '.' !in r.1[1..])
    ensures r.1 != "" ==> exists j :: RFind(path, '/') < j < |r.0| && path[j] != '.'
  {
    var sep := RFind(path, '/');
    var dot := RFind(path, '.');
    if dot > sep && exists j :: sep < j < dot && path[j] != '.' then
      assert path[..dot] + path[dot..] == path;
      (path[..dot], path[dot..])
    else
      (path, "")
  }

  /** `path` ends in the extension `e` and its last component has a
      character other than a dot before it. */
  predicate HasExtension(path: string, e: string) {
    && |e| <= |path|
    && path[|path| - |e|..] == e
    && exists j :: RFind(path, '/') < j < |path| - |e| && path[j] != '.'
  }

  /** For an extension made of one leading dot and neither further dots nor
      slashes, `splitext` reports it exactly when the path has it. */
  lemma SplitExtIff(path: string, e: string)
    requires |e| > 0 && e[0] == '.' && '.' !in e[1..] && '/' !in e
    ensures SplitExt(path).1 == e <==> HasExtension(path, e)
  {
    var r := SplitExt(path);
    if r.1 == e {
      assert path[|path| - |e|..] == r.1;
    }
    if HasExtension(path, e) {
      var d := |path| - |e|;
      forall j | d < j < |path| ensures path[j] != '.' {
        assert path[j] == e[j - d] == e[1..][j - d - 1];
      }
      RFindIs(path, '.', d);
      var sep := RFind(path, '/');
      var j :| sep < j < d && path[j] != '.';
      assert path[d..] == e;
    }
  }

  /** The reader chosen for a file. */
  datatype Loaded =
    | ReadXml                                     // the XML reader, not part of this model
    | ReadNon(result: Result<Nonogram, ParseError>)
    | NoReader                                    // no matching extension: nothing is returned

  /** Picks the reader from the extension, case-sensitively; `lines` are the
      file's lines, read only for a `.non` file. */
  function ParseNonogram(path: string, lines: seq<Line>): (r: Loaded)
    ensures HasExtension(path, ".xml") ==> r == ReadXml
    ensures HasExtension(path, ".non") ==> r == ReadNon(ParseNon(lines))
    ensures !HasExtension(path, ".xml") && !HasExtension(path, ".non") ==> r == NoReader
  {
    SplitExtIff(path, ".xml");
    SplitExtIff(path, ".non");
    var ext := SplitExt(path).1;
    if ext == ".xml" then ReadXml
    else if ext == ".non" then ReadNon(ParseNon(lines))
    else NoReader
  }
}
