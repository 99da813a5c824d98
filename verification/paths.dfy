/** The few path rules the file service relies on: `pathlib`'s split of a
    file name into stem and suffix, and the two ways of joining a directory
    and a name (`pathlib`'s `/` and `os.path.join`), for POSIX paths. */
module Paths {
  import opened Text

  /** `str.rfind`: the index of the last `c` in `s`, or -1. */
  function RFind(s: string, c: char): (i: int)
    ensures -1 <= i < |s|
    ensures i >= 0 ==> s[i] == c
    ensures forall j :: i < j < |s| ==> s[j] != c
    decreases |s|
  {
    if |s| == 0 then -1
    else if s[|s| - 1] == c then |s| - 1
    else RFind(s[..|s| - 1], c)
  }

  /** Whether the last dot of `name` splits off a suffix: it is neither the
      first nor the last character. */
  predicate HasSuffix(name: string) {
    var i := RFind(name, '.');
    0 < i < |name| - 1
  }

  /** `PurePath.suffix`: from the last dot on, or empty. */
  function Suffix(name: string): (r: string)
    ensures r == "" <==> !HasSuffix(name)
    ensures r != "" ==>
      && |r| >= 2 && r[0] == '.'
      && (forall j :: 1 <= j < |r| ==> r[j] != '.')
      && EndsWith(name, r) && |r| < |name|
  {
    var i := RFind(name, '.');
    if 0 < i < |name| - 1 then name[i..] else ""
  }

  /** `PurePath.stem`: the name without its suffix. */
  function Stem(name: string): (r: string)
    ensures r + Suffix(name) == name
    ensures |name| > 0 ==> |r| > 0
  {
    var i := RFind(name, '.');
    if 0 < i < |name| - 1 then name[..i] else name
  }

  /** A name's only dot at the front, as in `.png`, gives no suffix. */
  lemma LeadingDotIsNoSuffix(rest: string)
    requires forall j :: 0 <= j < |rest| ==> rest[j] != '.'
    ensures Suffix("." + rest) == "" && Stem("." + rest) == "." + rest
  {
    var name := "." + rest;
    LastDotAt(name, 0);
  }

  lemma SuffixExamples()
    ensures Suffix("photo.JPG") == ".JPG" && Stem("photo.JPG") == "photo"
    ensures Suffix("archive.tar.gz") == ".gz" && Stem("archive.tar.gz") == "archive.tar"
    ensures Suffix("notes.") == "" && Suffix("README") == ""
  {
    LastDotAt("photo.JPG", 5);
    LastDotAt("archive.tar.gz", 11);
    LastDotAt("notes.", 5);
    NoDot("README");
  }

  /** The last dot is at `i` when there is one there and none after it. */
  lemma LastDotAt(s: string, i: nat)
    requires i < |s| && s[i] == '.'
    requires forall j :: i < j < |s| ==> s[j] != '.'
    ensures RFind(s, '.') == i
  {
  }

  lemma NoDot(s: string)
    requires forall j :: 0 <= j < |s| ==> s[j] != '.'
    ensures RFind(s, '.') == -1
  {
  }

  /** `Path(dir) / name` for a normalised directory: the current directory
      `.` (or the empty path) disappears, the root keeps its single slash. */
  function PathJoin(dir: string, name: string): (r: string)
    ensures EndsWith(r, name)
    ensures dir == "" || dir == "." ==> r == name
    ensures dir != "" && dir != "." && !EndsWith(dir, "/") ==> r == dir + "/" + name
  {
    if dir == "" || dir == "." then name
    else if EndsWith(dir, "/") then dir + name
    else dir + "/" + name
  }

  /** `os.path.join(dir, name)` for a relative `name`: a slash is added only
      when `dir` is non-empty and does not end in one. */
  function OsJoin(dir: string, name: string): string {
    if dir == "" || EndsWith(dir, "/") then dir + name else dir + "/" + name
  }

  /** The joined path is the directory, a slash unless the directory is
      empty or already ends in one, then the name. */
  lemma OsJoinShape(dir: string, name: string)
    ensures var r := OsJoin(dir, name);
      EndsWith(r, name) &&
      r[..|r| - |name|] == if dir == "" || EndsWith(dir, "/") then dir else dir + "/"
  {
  }

  /** Names joined under the same directory stay apart. */
  lemma OsJoinInjective(dir: string, a: string, b: string)
    requires OsJoin(dir, a) == OsJoin(dir, b)
    ensures a == b
  {
    var p := if dir == "" || EndsWith(dir, "/") then dir else dir + "/";
    assert OsJoin(dir, a) == p + a && OsJoin(dir, b) == p + b;
    assert a == (p + a)[|p|..] && b == (p + b)[|p|..];
  }
}
