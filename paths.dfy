/** The default output file name: the input's stem followed by a fixed
    suffix, with the name and stem of a path as Python's pathlib defines them
    for POSIX paths. */
module Paths {
  import opened Text

  const Separator: char := '/'
  const OutputSuffix: string := "_extracted.txt"

  /** `p` with its trailing separators removed (pathlib drops them). */
  function DropTrailingSeparators(p: string): (r: string)
    ensures r <= p
    ensures r == [] || r[|r| - 1] != Separator
    ensures forall j :: |r| <= j < |p| ==> p[j] == Separator
  {
    if p != [] && p[|p| - 1] == Separator then DropTrailingSeparators(p[..|p| - 1]) else p
  }

  /** The name of a path: its last component. */
  function Name(p: string): (r: string)
    ensures Separator !in r
  {
    var q := DropTrailingSeparators(p);
    var i := LastIndexOf(q, Separator);
    var r := q[i + 1..];
    assert forall j :: 0 <= j < |r| ==> r[j] == q[i + 1 + j];
    r
  }

  /** The stem of a path: its name without the last suffix; a dot at the
      start or at the end of the name does not start a suffix. */
  function Stem(p: string): (r: string)
    ensures r <= Name(p)
    ensures Separator !in r
    ensures Name(p) != [] ==> r != []
  {
    var name := Name(p);
    var i := LastIndexOf(name, '.');
    if 0 < i < |name| - 1 then name[..i] else name
  }

  /** The output path used when none is given: the input's stem followed by
      the fixed suffix, with no directory part, so the file is created in the
      working directory. */
  function DefaultOutputPath(pdfPath: string): (r: string)
    ensures |r| == |Stem(pdfPath)| + |OutputSuffix|
    ensures r[..|Stem(pdfPath)|] == Stem(pdfPath)
    ensures r[|Stem(pdfPath)|..] == OutputSuffix
    ensures Separator !in r
  {
    Stem(pdfPath) + OutputSuffix
  }

  /** `rfind` is pinned down by one occurrence with none after it. */
  lemma LastIndexOfAt(s: string, c: char, i: int)
    requires -1 <= i < |s|
    requires i >= 0 ==> s[i] == c
    requires forall j :: i < j < |s| ==> s[j] != c
    ensures LastIndexOf(s, c) == i
  {
  }

  /** The name of `dir + file`, where `file` is a single component
      that does not end in a separator. */
  lemma NameAfterDirectory(dir: string, file: string)
    requires dir == [] || dir[|dir| - 1] == Separator
    requires file != [] && Separator !in file
    ensures Name(dir + file) == file
  {
    var p := dir + file;
    assert p[|p| - 1] == file[|file| - 1];
    assert DropTrailingSeparators(p) == p;
    forall j | |dir| <= j < |p| ensures p[j] != Separator {
      assert p[j] == file[j - |dir|];
    }
    if dir != [] {
      assert p[|dir| - 1] == Separator;
    }
    LastIndexOfAt(p, Separator, |dir| - 1);
    assert p[|dir|..] == file;
  }

  /** For `dir/base.ext` (any directory prefix, any non-empty base, dots
      included, and an extension without dots) the stem is the base: only the
      last suffix is dropped, so `archive.tar.pdf` has stem `archive.tar`. */
  lemma StemOfFileName(dir: string, base: string, ext: string)
    requires dir == [] || dir[|dir| - 1] == Separator
    requires base != [] && Separator !in base
    requires ext != [] && Separator !in ext && '.' !in ext
    ensures Stem(dir + (base + ("." + ext))) == base
  {
    var file := base + ("." + ext);
    assert Name(dir + file) == file by {
      SuffixAfterDot(base, ext);
      NameAfterDirectory(dir, file);
    }
    assert LastIndexOf(file, '.') == |base| by {
      SuffixAfterDot(base, ext);
      LastIndexOfAt(file, '.', |base|);
    }
    TakeConcat(base, "." + ext);
  }

  /** The first `|a|` characters of `a + b` are `a`. */
  lemma TakeConcat(a: string, b: string)
    ensures (a + b)[..|a|] == a
  {
  }

  /** In `base.ext`, the dot after the base is the last dot. */
  lemma SuffixAfterDot(base: string, ext: string)
    requires Separator !in base
    requires Separator !in ext && '.' !in ext
    ensures var file := base + ("." + ext);
      && file[|base|] == '.'
      && (forall j :: |base| < j < |file| ==> file[j] != '.')
      && Separator !in file
  {
    var file := base + ("." + ext);
    forall j | |base| < j < |file| ensures file[j] != '.' && file[j] != Separator {
      assert file[j] == ext[j - |base| - 1];
    }
    forall j | 0 <= j < |base| ensures file[j] != Separator {
      assert file[j] == base[j];
    }
  }

  /** `dir/base.ext` is written to `base_extracted.txt` in the working
      directory; for instance `report.pdf` to `report_extracted.txt`. */
  lemma DefaultOutputOfFileName(dir: string, base: string, ext: string)
    requires dir == [] || dir[|dir| - 1] == Separator
    requires base != [] && Separator !in base
    requires ext != [] && Separator !in ext && '.' !in ext
    ensures DefaultOutputPath(dir + (base + ("." + ext))) == base + OutputSuffix
  {
    StemOfFileName(dir, base, ext);
  }

  /** A name without a dot has no suffix to drop. */
  lemma StemOfPlainName(dir: string, base: string)
    requires dir == [] || dir[|dir| - 1] == Separator
    requires base != [] && Separator !in base && '.' !in base
    ensures Stem(dir + base) == base
  {
    NameAfterDirectory(dir, base);
    LastIndexOfAt(base, '.', -1);
  }

  /** A dot-file such as `.hidden` has no suffix to drop. */
  lemma StemOfDotFile(dir: string, base: string)
    requires dir == [] || dir[|dir| - 1] == Separator
    requires base != [] && Separator !in base && '.' !in base
    ensures Stem(dir + ("." + base)) == "." + base
  {
    var file := "." + base;
    forall j | 0 < j < |file| ensures file[j] != '.' && file[j] != Separator {
      assert file[j] == base[j - 1];
    }
    assert file[0] == '.';
    NameAfterDirectory(dir, file);
    LastIndexOfAt(file, '.', 0);
  }
}
