/** The path-string and byte-size helpers of `os_utils.py`. The separator
    `os.sep` is taken to be '/'. */
module OsUtils {
  import opened Wrappers
  import opened Strings

  /** `os.sep`. */
  const Sep: char := '/'

  // ---------------------------------------------------------------------
  // get_extension_from_path
  // ---------------------------------------------------------------------

  /** `get_extension_from_path(path)`, with `Path(path).is_dir()` given as
      `isDir`: the last '.'-piece of the last `os.sep`-piece. */
  function ExtensionFromPath(path: string, isDir: bool): (ext: string)
    ensures isDir || '.' !in path ==> ext == ""
    ensures '.' !in ext
  {
    if isDir || '.' !in path then ""
    else Last(Split(Last(Split(path, Sep)), '.'))
  }

  /** No extension for a directory or a path without '.'; otherwise the
      extension is the longest suffix of the path holding neither '.' nor
      `os.sep`: it is preceded by one of the two (when the last segment has no
      dot, the whole segment is returned). */
  lemma ExtensionIsLastSuffix(path: string, isDir: bool)
    ensures var ext := ExtensionFromPath(path, isDir);
      && (isDir || '.' !in path ==> ext == "")
      && '.' !in ext && Sep !in ext
      && |ext| <= |path| && ext == path[|path| - |ext|..]
      && (!isDir && '.' in path ==> |ext| < |path|)
      && (!isDir && '.' in path ==> path[|path| - |ext| - 1] == '.' || path[|path| - |ext| - 1] == Sep)
  {
    if !isDir && '.' in path {
      DottedExtension(path);
    }
  }

  /** The last `n` characters of `path` follow a '.' or an `os.sep`. */
  predicate AfterBoundary(path: string, n: nat) {
    n < |path| && (path[|path| - n - 1] == '.' || path[|path| - n - 1] == Sep)
  }

  /** The last '.'-piece of the last `os.sep`-piece of a path holding a '.'. */
  lemma DottedExtension(path: string)
    requires '.' in path
    ensures var ext := Last(Split(Last(Split(path, Sep)), '.'));
      AfterBoundary(path, |ext|) && ext == path[|path| - |ext|..] && '.' !in ext && Sep !in ext
  {
    var seg := Last(Split(path, Sep));
    SplitLast(path, Sep);
    var dot :| 0 <= dot < |path| && path[dot] == '.';
    SegmentExtension(path, seg, dot);
  }

  /** The last '.'-piece of `seg`, the part of `path` after its last
      `os.sep`. */
  lemma SegmentExtension(path: string, seg: string, dot: nat)
    requires |seg| <= |path| && seg == path[|path| - |seg|..] && Sep !in seg
    requires |seg| == |path| || path[|path| - |seg| - 1] == Sep
    requires dot < |path| && path[dot] == '.'
    ensures var ext := Last(Split(seg, '.'));
      AfterBoundary(path, |ext|) && ext == path[|path| - |ext|..] && '.' !in ext && Sep !in ext
  {
    var ext := Last(Split(seg, '.'));
    SplitLast(seg, '.');
    LastPieceFree(seg, '.');
    SuffixOfSuffix(path, seg, ext);
    DotBeforeSuffix(path, ext, dot);
    if |ext| < |seg| {
      assert path[|path| - |ext| - 1] == '.';
    } else {
      assert path[|path| - |seg| - 1] == Sep;
    }
    assert Sep !in ext;
  }

  /** A '.' of `path` lies before any suffix free of '.'. */
  lemma DotBeforeSuffix(path: string, ext: string, dot: nat)
    requires |ext| <= |path| && ext == path[|path| - |ext|..] && '.' !in ext
    requires dot < |path| && path[dot] == '.'
    ensures dot < |path| - |ext|
  {
  }

  /** A suffix of a suffix is a suffix, its characters are the longer
      suffix's, and the element before it is the same in both. */
  lemma SuffixOfSuffix<T>(s: seq<T>, a: seq<T>, b: seq<T>)
    requires |a| <= |s| && a == s[|s| - |a|..]
    requires |b| <= |a| && b == a[|a| - |b|..]
    ensures b == s[|s| - |b|..]
    ensures forall x :: x in b ==> x in a
    ensures |b| < |a| ==> s[|s| - |b| - 1] == a[|a| - |b| - 1]
  {
    forall x | x in b
      ensures x in a
    {
      var k :| 0 <= k < |b| && b[k] == x;
      assert a[|a| - |b| + k] == x;
    }
  }

  /** The extension of `stem.ext` is `ext` when `ext` holds neither '.' nor
      `os.sep`, whatever `stem` is. */
  lemma ExtensionOfName(stem: string, ext: string)
    requires '.' !in ext && Sep !in ext
    ensures ExtensionFromPath(stem + "." + ext, false) == ext
  {
    var path := stem + "." + ext;
    var e := ExtensionFromPath(path, false);
    assert path[|stem|] == '.';
    ExtensionIsLastSuffix(path, false);
    assert e == path[|path| - |ext|..] == ext;
  }

  // ---------------------------------------------------------------------
  // remove_extension_from_filename
  // ---------------------------------------------------------------------

  /** `remove_extension_from_filename(filename)`, with `Path(filename).is_dir()`
      given as `isDir`: every occurrence of '.' + extension is deleted, and the
      name is kept whole when nothing would be left. */
  function RemoveExtension(filename: string, isDir: bool): (r: string)
    ensures |r| <= |filename|
    ensures |r| == 0 ==> |filename| == 0
  {
    var stripped := RemoveAll(filename, "." + ExtensionFromPath(filename, isDir));
    if |stripped| == 0 then filename else stripped
  }

  /** A name with one extension loses it, except a dot-file such as ".bashrc",
      which would be left empty and is returned whole. */
  lemma RemoveSingleExtension(stem: string, ext: string)
    requires '.' !in stem && '.' !in ext && Sep !in ext
    ensures RemoveExtension(stem + "." + ext, false) == if |stem| == 0 then "." + ext else stem
  {
    var pat := "." + ext;
    ExtensionOfName(stem, ext);
    assert stem + "." + ext == stem + pat;
    RemoveAllSkipsPrefix(stem, pat, pat);
    assert pat[..|pat|] == pat && pat[|pat|..] == [];
    assert RemoveAll(pat, pat) == [];
    assert stem + [] == stem;
  }

  /** Every occurrence of ".ext" is deleted, not only the last: a name with
      its extension repeated loses both copies. */
  lemma RemoveRepeatedExtension(stem: string, ext: string)
    requires '.' !in stem && '.' !in ext && Sep !in ext
    ensures RemoveExtension(stem + "." + ext + "." + ext, false)
              == if |stem| == 0 then "." + ext + "." + ext else stem
  {
    var pat := "." + ext;
    ExtensionOfName(stem + "." + ext, ext);
    RemoveRepeatedPattern(stem, pat);
    assert stem + "." + ext + "." + ext == stem + pat + pat;
  }

  /** Deleting `pat` from a prefix free of its first character followed by
      two copies of it leaves the prefix. */
  lemma RemoveRepeatedPattern(pre: string, pat: string)
    requires |pat| > 0 && pat[0] !in pre
    ensures RemoveAll(pre + pat + pat, pat) == pre
  {
    var twice := pat + pat;
    RemoveTwice(pat);
    RemoveAllSkipsPrefix(pre, twice, pat);
    calc {
      RemoveAll(pre + pat + pat, pat);
      { assert pre + pat + pat == pre + twice; }
      RemoveAll(pre + twice, pat);
      pre + RemoveAll(twice, pat);
      { assert pre + [] == pre; }
      pre;
    }
  }

  /** Deleting a pattern from two copies of it leaves nothing. */
  lemma RemoveTwice(pat: string)
    requires |pat| > 0
    ensures RemoveAll(pat + pat, pat) == []
  {
    assert (pat + pat)[..|pat|] == pat && (pat + pat)[|pat|..] == pat;
    assert pat[..|pat|] == pat && pat[|pat|..] == [];
  }

  /** Deleting the occurrences can join what surrounds them into a new
      ".ext", which is kept: ".a.abb.ab" has extension "ab" and becomes
      ".ab". */
  lemma DeletionCanRebuildExtension()
    ensures RemoveExtension(".a.abb.ab", false) == ".ab"
  {
    ExtensionOfName(".a.abb", "ab");
    assert ".a.abb" + "." + "ab" == ".a.abb.ab";
    assert "." + "ab" == ".ab";
    DeletionJoinsPieces();
  }

  /** `".a.abb.ab".replace(".ab", "")` deletes the two occurrences at 2 and
      6, and the pieces left, ".a" and "b", spell ".ab". */
  lemma DeletionJoinsPieces()
    ensures RemoveAll(".a.abb.ab", ".ab") == ".ab"
  {
    var pat := ".ab";
    DeletionLeavesB();
    var r4 := RemoveAll("a.abb.ab", pat);
    assert r4 == "a" + "b" by {
      KeepFirst("a.abb.ab", pat, 0);
      assert "a.abb.ab"[1..] == ".abb.ab";
    }
    assert RemoveAll(".a.abb.ab", pat) == "." + r4 by {
      KeepFirst(".a.abb.ab", pat, 2);
      assert ".a.abb.ab"[1..] == "a.abb.ab";
    }
  }

  /** The tail ".abb.ab" loses both occurrences and keeps "b". */
  lemma DeletionLeavesB()
    ensures RemoveAll(".abb.ab", ".ab") == "b"
  {
    var pat := ".ab";
    assert RemoveAll(".ab", pat) == [] by {
      assert ".ab"[..3] == pat && ".ab"[3..] == [];
    }
    assert RemoveAll("b.ab", pat) == "b" by {
      KeepFirst("b.ab", pat, 0);
      assert "b.ab"[1..] == ".ab";
    }
    assert ".abb.ab"[..3] == pat && ".abb.ab"[3..] == "b.ab";
  }

  /** The first character is kept when the text does not start with `pat`,
      as witnessed by position `k`. */
  lemma KeepFirst(s: string, pat: string, k: nat)
    requires k < |pat| <= |s| && s[k] != pat[k]
    ensures RemoveAll(s, pat) == [s[0]] + RemoveAll(s[1..], pat)
  {
    assert s[..|pat|][k] != pat[k];
  }

  /** ".bashrc" is returned unchanged. */
  lemma DotfileKept()
    ensures RemoveExtension(".bashrc", false) == ".bashrc"
  {
    assert "" + "." + "bashrc" == ".bashrc";
    RemoveSingleExtension("", "bashrc");
  }

  /** "report.pdf" becomes "report". */
  lemma ReportLosesExtension()
    ensures RemoveExtension("report.pdf", false) == "report"
  {
    assert "report" + "." + "pdf" == "report.pdf";
    RemoveSingleExtension("report", "pdf");
  }

  /** Deleting a one-character pattern deletes that character everywhere. */
  lemma {:induction false} RemoveAllOneChar(s: string, c: char)
    ensures RemoveAll(s, [c]) == RemoveChar(s, c)
  {
    if |s| > 0 {
      RemoveAllOneChar(s[1..], c);
      assert s[..1] == [s[0]];
    }
  }

  /** A name without '.' is returned unchanged. */
  lemma NoDotKept(filename: string, isDir: bool)
    requires '.' !in filename
    ensures RemoveExtension(filename, isDir) == filename
  {
    assert ExtensionFromPath(filename, isDir) == "";
    assert "." + "" == ".";
    RemoveAllSkipsPrefix(filename, [], ".");
    assert filename + [] == filename;
  }

  /** A directory's extension is "", so the pattern deleted is "." and the
      name loses every '.', unless only dots would be left. */
  lemma DirectoryLosesDots(filename: string)
    ensures RemoveExtension(filename, true)
              == if |RemoveChar(filename, '.')| == 0 then filename else RemoveChar(filename, '.')
  {
    assert "." + "" == ".";
    RemoveAllOneChar(filename, '.');
  }

  // ---------------------------------------------------------------------
  // is_subfolder_descendant_of_folder
  // ---------------------------------------------------------------------

  /** `subfolder.startswith(folder + os.sep)`. */
  predicate IsSubfolderDescendant(subfolder: string, folder: string)
    ensures IsSubfolderDescendant(subfolder, folder) ==>
              |subfolder| > |folder| && subfolder[..|folder|] == folder && subfolder[|folder|] == Sep
  {
    folder + [Sep] <= subfolder
  }

  /** A descendant is the folder, `os.sep`, and some rest; it is longer than
      the folder, so no folder is its own descendant; and a descendant of a
      descendant is a descendant. */
  lemma DescendantShape(subfolder: string, folder: string)
    ensures IsSubfolderDescendant(subfolder, folder) <==> exists rest :: subfolder == folder + [Sep] + rest
    ensures IsSubfolderDescendant(subfolder, folder) ==> |subfolder| > |folder|
    ensures !IsSubfolderDescendant(folder, folder)
  {
    if IsSubfolderDescendant(subfolder, folder) {
      var rest := subfolder[|folder| + 1..];
      assert subfolder == folder + [Sep] + rest;
    }
  }

  lemma DescendantTransitive(a: string, b: string, c: string)
    requires IsSubfolderDescendant(a, b) && IsSubfolderDescendant(b, c)
    ensures IsSubfolderDescendant(a, c)
  {
    assert a[..|c| + 1] == b[..|c| + 1];
  }

  // ---------------------------------------------------------------------
  // beautify_bytes_size and size_string_to_bytes
  // ---------------------------------------------------------------------

  /** The units, base 1024. */
  datatype Unit = Bytes | KB | MB | GB

  /** The number of bytes in one unit. */
  function Scale(u: Unit): nat {
    match u
    case Bytes => 1
    case KB => 1024
    case MB => 1024 * 1024
    case GB => 1024 * 1024 * 1024
  }

  /** The unit's name as printed. */
  function UnitName(u: Unit): string {
    match u
    case Bytes => "bytes"
    case KB => "KB"
    case MB => "MB"
    case GB => "GB"
  }

  /** `beautify_bytes_size(size)` without its formatted string: the scaled
      value and the unit. The unit is the largest one that fits in `size`
      (bytes when none does), and the value times the unit is `size`. */
  function BeautifyBytesSize(size: int): (r: (real, Unit))
    ensures r.0 * Scale(r.1) as real == size as real
    ensures r.1 == Bytes || Scale(r.1) <= size
    ensures forall u :: Scale(u) <= size ==> Scale(u) <= Scale(r.1)
  {
    if size < 1024 then (size as real, Bytes)
    else if size < 1024 * 1024 then (size as real / 1024.0, KB)
    else if size < 1024 * 1024 * 1024 then (size as real / (1024 * 1024) as real, MB)
    else (size as real / (1024 * 1024 * 1024) as real, GB)
  }

  /** From 1024 bytes on, the scaled value is at least 1, and below 1024 for
      every unit but GB. */
  lemma ScaledValueReadable(size: int)
    requires size >= 1024
    ensures var (value, u) := BeautifyBytesSize(size);
      1.0 <= value && (u != GB ==> value < 1024.0)
  {
  }

  /** The multiplier `size_string_to_bytes` applies for a unit name: 1024,
      1024² or 1024³ for "KB", "MB", "GB", and 1 for anything else. */
  function Multiplier(unit: string): (m: real)
    ensures m >= 1.0
    ensures unit == "KB" ==> m == 1024.0
    ensures unit == "MB" ==> m == 1048576.0
    ensures unit == "GB" ==> m == 1073741824.0
    ensures unit != "KB" && unit != "MB" && unit != "GB" ==> m == 1.0
  {
    if unit == "KB" then 1024.0
    else if unit == "MB" then (1024 * 1024) as real
    else if unit == "GB" then (1024 * 1024 * 1024) as real
    else 1.0
  }

  /** `size_string_to_bytes(size)`, with `float` given as `parse`: the first
      space-separated token is parsed (a `ValueError` when it is no number),
      the second names the unit (an `IndexError` when there is none). */
  function SizeStringToBytes(size: string, parse: string -> Option<real>): (r: Result<real, PyError>)
    ensures r.Success? <==> ' ' in size && parse(Split(size, ' ')[0]).Some?
    ensures parse(Split(size, ' ')[0]).None? ==> r == Failure(ValueError)
    ensures ' ' !in size && parse(size).Some? ==> r == Failure(IndexError)
    ensures ' ' in size && parse(Split(size, ' ')[0]).Some? ==>
              |Split(size, ' ')| > 1 && r.Success?
              && r.value == parse(Split(size, ' ')[0]).value * Multiplier(Split(size, ' ')[1])
  {
    var tokens := Split(size, ' ');
    SplitsApart(size, ' ');
    match parse(tokens[0])
    case None => Failure(ValueError)
    case Some(num) =>
      if |tokens| < 2 then Failure(IndexError)
      else Success(num * Multiplier(tokens[1]))
  }

  /** A unit's name maps back to its scale. */
  lemma MultiplierOfName(u: Unit)
    ensures Multiplier(UnitName(u)) == Scale(u) as real
  {
  }

  /** Round trip: writing the beautified value (as any text `float` reads back
      as that value), a space and the unit name, and converting that string
      back, gives the original byte count. */
  lemma BeautifyRoundTrip(size: int, text: string, parse: string -> Option<real>)
    requires ' ' !in text && parse(text) == Some(BeautifyBytesSize(size).0)
    ensures var r := SizeStringToBytes(text + " " + UnitName(BeautifyBytesSize(size).1), parse);
      r.Success? && r.value == size as real
  {
    var (value, u) := BeautifyBytesSize(size);
    var name := UnitName(u);
    assert ' ' !in name;
    SplitTwo(text, name, ' ');
    ParseTwoTokens(text, name, parse);
    MultiplierOfName(u);
    assert value * Multiplier(name) == size as real;
  }

  /** A number, a space and a unit name convert to the number times the
      unit's multiplier. */
  lemma ParseTwoTokens(text: string, name: string, parse: string -> Option<real>)
    requires Split(text + [' '] + name, ' ') == [text, name] && parse(text).Some?
    ensures var r := SizeStringToBytes(text + " " + name, parse);
      r.Success? && r.value == parse(text).value * Multiplier(name)
  {
    assert text + " " + name == text + [' '] + name;
  }
}
