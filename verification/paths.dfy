/** The two `std::filesystem::path` operations the core relies on, for
    POSIX paths without root names: `operator/` and `extension()`. */
module Paths {

  predicate IsAbsolute(p: string)
  {
    |p| > 0 && p[0] == '/'
  }

  /** `base / rel`: an absolute `rel` replaces `base`; otherwise a `/` is
      inserted unless `base` is empty or already ends in one. */
  function Join(base: string, rel: string): (r: string)
    ensures IsAbsolute(rel) ==> r == rel
    ensures !IsAbsolute(rel) && base == [] ==> r == rel
    ensures !IsAbsolute(rel) && base != [] && base[|base| - 1] == '/' ==> r == base + rel
    ensures !IsAbsolute(rel) && base != [] && base[|base| - 1] != '/' ==> r == base + "/" + rel
    ensures IsAbsolute(r) <==> IsAbsolute(rel) || IsAbsolute(base)
  {
    if IsAbsolute(rel) then rel
    else if base == [] || base[|base| - 1] == '/' then base + rel
    else base + "/" + rel
  }

  /** The index of the last `c` in `s`, the `find_last_of` of one
      character. */
  function FindLast(s: string, c: char): (k: int)
    ensures -1 <= k < |s|
    ensures k >= 0 ==> s[k] == c && forall i :: k < i < |s| ==> s[i] != c
    ensures k == -1 ==> forall i :: 0 <= i < |s| ==> s[i] != c
    decreases |s|
  {
    if s == [] then -1
    else if s[|s| - 1] == c then |s| - 1
    else FindLast(s[..|s| - 1], c)
  }

  /** `path(name).extension()` of a file name: from the last `.` on, but
      empty for `.`, `..`, a name without `.`, or a name whose only `.`
      leads it (a hidden file). */
  function Extension(name: string): (r: string)
    ensures r != [] ==> r[0] == '.' && exists k :: 0 < k < |name| && r == name[k..]
    ensures r != [] ==> forall i :: 1 <= i < |r| ==> r[i] != '.'
    ensures r == [] <==> name == "." || name == ".." || forall i :: 0 < i < |name| ==> name[i] != '.'
  {
    if name == "." || name == ".." then []
    else
      var k := FindLast(name, '.');
      if k <= 0 then [] else name[k..]
  }
}
