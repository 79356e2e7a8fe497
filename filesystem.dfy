/**
 * `file_extension` from x.hpp's filesystem section: the one helper there
 * that works on the text of a name alone, without `std::filesystem`.
 */
module FileSystem {
  import opened Wrappers

  /** `s.find_last_of(c)`: the index of the last `c` in `s`, or `None` for `npos`. */
  function FindLastOf(s: string, c: char): (r: Option<nat>)
    ensures r.Some? ==> r.value < |s| && s[r.value] == c
    ensures r.Some? ==> forall j :: r.value < j < |s| ==> s[j] != c
    ensures r.None? ==> c !in s
    decreases |s|
  {
    if |s| == 0 then None
    else if s[|s| - 1] == c then Some(|s| - 1)
    else FindLastOf(s[..|s| - 1], c)
  }

  /**
   * `file_extension(filename)`: the text after the last '.', or "" when there
   * is no '.' at all. The result never contains a '.', and when the name has
   * a '.' the result is exactly what follows the last one.
   */
  function FileExtension(filename: string): (r: string)
    ensures '.' !in filename ==> r == ""
    ensures '.' in filename ==> |r| < |filename| && filename[|filename| - |r| - 1] == '.'
                                && r == filename[|filename| - |r|..]
    ensures '.' !in r
  {
    match FindLastOf(filename, '.')
    case None => ""
    case Some(i) => filename[i + 1..]
  }

  /** The extension of `base.ext` is `ext` whenever `ext` has no '.' of its own. */
  lemma ExtensionAfterLastDot(base: string, ext: string)
    requires '.' !in ext
    ensures FileExtension(base + "." + ext) == ext
  {
    var name := base + "." + ext;
    assert name[|base|] == '.';
    assert forall j :: |base| < j < |name| ==> name[j] == ext[j - |base| - 1];
    assert name[|base| + 1..] == ext;
  }
}
