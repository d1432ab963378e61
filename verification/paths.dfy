/** Path names as `pathlib` splits them: the suffix (extension) and the stem
    of a file name. */
module Paths {
  import opened Wrappers
  import opened Strings

  /** The position of the last `c` in `s`, if any. */
  function LastIndexOf(s: string, c: char): (r: Option<nat>)
    ensures r.None? ==> c !in s
    ensures r.Some? ==> r.value < |s| && s[r.value] == c && c !in s[r.value + 1..]
  {
    if |s| == 0 then None
    else if s[|s| - 1] == c then Some(|s| - 1)
    else
      var r := LastIndexOf(s[..|s| - 1], c);
      assert r.Some? ==> s[r.value + 1..] == s[..|s| - 1][r.value + 1..] + [s[|s| - 1]];
      assert r.None? ==> s == s[..|s| - 1] + [s[|s| - 1]];
      r
  }

  /** `pathlib`'s `suffix`: from the last dot, unless that dot is the first or
      the last character. */
  function Suffix(name: string): (r: string)
    ensures r == "" || (2 <= |r| < |name| && r[0] == '.' && '.' !in r[1..] && EndsWith(name, r))
  {
    match LastIndexOf(name, '.')
    case Some(i) => if 0 < i < |name| - 1 then name[i..] else ""
    case None => ""
  }

  /** `pathlib`'s `stem`: the name without its suffix. */
  function Stem(name: string): string {
    match LastIndexOf(name, '.')
    case Some(i) => if 0 < i < |name| - 1 then name[..i] else name
    case None => name
  }

  /** A name is its stem followed by its suffix. */
  lemma StemSuffix(name: string)
    ensures Stem(name) + Suffix(name) == name
  {
  }

  /** A dot-free stem followed by a dot and a dot-free extension splits back
      into the two. */
  lemma SimpleName(stem: string, ext: string)
    requires |stem| > 0 && |ext| > 0 && '.' !in stem && '.' !in ext
    ensures Suffix(stem + "." + ext) == "." + ext
    ensures Stem(stem + "." + ext) == stem
  {
    var name := stem + "." + ext;
    assert name[|stem|] == '.';
    assert name[|stem| + 1..] == ext;
    assert name[..|stem|] == stem;
    var i := LastIndexOf(name, '.');
    assert forall j :: 0 <= j < |stem| ==> name[j] == stem[j] && name[j] != '.';
    assert forall j :: |stem| < j < |name| ==> name[j] == ext[j - |stem| - 1] && name[j] != '.';
    assert i.Some? && i.value == |stem|;
  }
}
