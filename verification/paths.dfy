/** Output-path rules of the two translator scripts, on POSIX paths as
    strings, with the `posixpath` functions they use written out:
    `splitext`, `basename`, `dirname` and `join`. Walking the directory tree
    and `relpath` are left out: the relative path of a walked file is a
    parameter. */
module Paths {
  import opened Wrappers
  import opened Strings

  /** `s.rfind(c)` for one character: the last index holding `c`, or -1. */
  function RFind(s: string, c: char): (r: int)
    ensures -1 <= r < |s|
    ensures r >= 0 ==> s[r] == c
    ensures forall i :: r < i < |s| ==> s[i] != c
  {
    if |s| == 0 then -1
    else if s[|s| - 1] == c then |s| - 1
    else RFind(s[..|s| - 1], c)
  }

  /** The last index holding `c` is `r` when `s[r]` is `c` and no later
      character is. */
  lemma RFindIs(s: string, c: char, r: int)
    requires -1 <= r < |s| && (r >= 0 ==> s[r] == c)
    requires forall i :: r < i < |s| ==> s[i] != c
    ensures RFind(s, c) == r
  {
  }

  /** Some character of `p[from..to]` is not a dot. */
  predicate HasNonDot(p: string, from: nat, to: nat)
    requires from <= to <= |p|
  {
    exists i :: from <= i < to && p[i] != '.'
  }

  /** The last component of `p` has a dot with some character other than a
      dot before it. */
  predicate HasExtension(p: string) {
    exists i, j :: 0 <= j < i < |p| && p[j] != '.' && p[i] == '.' && NoSlashFrom(p, j)
  }

  /** No slash at or after index `j`. */
  predicate NoSlashFrom(p: string, j: nat) {
    forall q :: j <= q < |p| ==> p[q] != '/'
  }

  /** The test `splitext` makes on the last slash and the last dot is
      exactly `HasExtension`. */
  lemma ExtensionTest(p: string)
    ensures (RFind(p, '.') > RFind(p, '/') && HasNonDot(p, RFind(p, '/') + 1, RFind(p, '.')))
        <==> HasExtension(p)
  {
    var sep := RFind(p, '/');
    var dot := RFind(p, '.');
    if dot > sep && HasNonDot(p, sep + 1, dot) {
      var j :| sep + 1 <= j < dot && p[j] != '.';
      assert NoSlashFrom(p, j);
    }
    if HasExtension(p) {
      var i, j :| 0 <= j < i < |p| && p[j] != '.' && p[i] == '.' && NoSlashFrom(p, j);
      assert sep < j;
      assert i <= dot;
      assert sep + 1 <= j < dot && p[j] != '.';
    }
  }

  /** `posixpath.splitext`: the extension starts at the last dot of the last
      component, unless everything before that dot in the component is dots
      (a hidden file such as `.po` has no extension). */
  function SplitExt(p: string): (r: (string, string))
    ensures r.0 + r.1 == p
    ensures r.1 == "" || (r.1[0] == '.' && forall i :: 0 < i < |r.1| ==> r.1[i] != '.' && r.1[i] != '/')
  {
    var sep := RFind(p, '/');
    var dot := RFind(p, '.');
    if dot > sep && HasNonDot(p, sep + 1, dot) then
      assert p[..dot] + p[dot..] == p;
      (p[..dot], p[dot..])
    else (p, "")
  }

  /** `splitext` finds an extension exactly when the last component has a
      dot with a character other than a dot before it; the extension then
      starts at the last dot of `p`. */
  lemma SplitExtHasExtension(p: string)
    ensures SplitExt(p).1 != "" <==> HasExtension(p)
    ensures SplitExt(p).1 != "" ==> |SplitExt(p).0| == RFind(p, '.')
  {
    ExtensionTest(p);
  }

  /** `posixpath.basename`: everything after the last slash. */
  function BaseName(p: string): (r: string)
    ensures forall i :: 0 <= i < |r| ==> r[i] != '/'
    ensures EndsWith(p, r)
  {
    p[RFind(p, '/') + 1..]
  }

  /** All characters are slashes. */
  predicate AllSlashes(s: string) {
    forall i :: 0 <= i < |s| ==> s[i] == '/'
  }

  /** `s.rstrip('/')` */
  function RStripSlash(s: string): (r: string)
    ensures StartsWith(s, r) && AllSlashes(s[|r|..])
    ensures |r| > 0 ==> r[|r| - 1] != '/'
  {
    if |s| > 0 && s[|s| - 1] == '/' then
      var r := RStripSlash(s[..|s| - 1]);
      assert s[|r|..] == s[..|s| - 1][|r|..] + ['/'];
      r
    else s
  }

  /** `posixpath.dirname`: everything up to the last slash, with trailing
      slashes stripped unless the head is nothing but slashes. */
  function DirName(p: string): (r: string)
    ensures StartsWith(p, r)
  {
    var head := p[..RFind(p, '/') + 1];
    if head != [] && !AllSlashes(head) then RStripSlash(head) else head
  }

  /** `posixpath.join(a, b)`: an absolute `b` replaces `a`; otherwise a slash
      separates the two unless `a` is empty or already ends with one. */
  function Join(a: string, b: string): (r: string)
    ensures StartsWith(b, "/") ==> r == b
    ensures !StartsWith(b, "/") ==> r == (if a == [] || EndsWith(a, "/") then a + b else a + "/" + b)
  {
    if StartsWith(b, "/") then b
    else if a == [] || EndsWith(a, "/") then a + b
    else a + "/" + b
  }

  /** Joining onto an empty directory yields the second path itself. */
  lemma JoinEmpty(b: string)
    ensures Join([], b) == b
  {
  }

  /** A `.po` path whose last component has a non-dot character before the
      final `.po`: the common case, where `.po` is the extension. */
  predicate PlainPoPath(p: string) {
    EndsWith(p, ".po") && RFind(p, '/') + 1 <= |p| - 3 && HasNonDot(p, RFind(p, '/') + 1, |p| - 3)
  }

  /** For a plain `.po` path the extension is exactly the final `.po`. */
  lemma SplitExtPo(p: string)
    ensures PlainPoPath(p) ==> SplitExt(p) == (p[..|p| - 3], ".po")
  {
    if PlainPoPath(p) {
      assert p[|p| - 3..] == ".po";
      assert p[|p| - 3] == '.' && p[|p| - 2] == 'p' && p[|p| - 1] == 'o';
      assert RFind(p, '.') == |p| - 3;
    }
  }

  // ---------------------------------------------------------------------
  // Multi-Translator.py, `process_directory`
  // ---------------------------------------------------------------------

  /** A single input file: only a `.po` file is processed, and its output is
      written next to it as `splitext(input)[0] + suffix + ".po"`; the output
      directory argument plays no part. */
  function MultiFileOutput(input: string, suffix: string): (r: Option<string>)
    ensures r.Some? <==> EndsWith(input, ".po")
    ensures PlainPoPath(input) ==> r == Some(input[..|input| - 3] + suffix + ".po")
  {
    SplitExtPo(input);
    if EndsWith(input, ".po") then Some(SplitExt(input).0 + suffix + ".po") else None
  }

  /** For a plain `.po` path the output overwrites the input exactly when
      the suffix is empty. */
  lemma MultiFileOutputDistinct(input: string, suffix: string)
    requires PlainPoPath(input)
    ensures MultiFileOutput(input, suffix) == Some(input) <==> suffix == ""
  {
    var stem := input[..|input| - 3];
    assert input == stem + ".po" by { assert input[|input| - 3..] == ".po"; }
    SuffixChangesName([], stem, suffix);
    assert [] + (stem + suffix + ".po") == stem + suffix + ".po";
    assert [] + (stem + ".po") == stem + ".po";
  }

  /** A hidden file named `.po` has no extension, so the suffix and a second
      `.po` are appended to the whole name. */
  lemma MultiFileHiddenName()
    ensures MultiFileOutput("locale/.po", "_translated") == Some("locale/.po_translated.po")
  {
    var p := "locale/.po";
    assert p[6] == '/' && p[7] == '.' && p[8] == 'p' && p[9] == 'o';
    RFindIs(p, '/', 6);
    RFindIs(p, '.', 7);
    assert EndsWith(p, ".po");
    assert SplitExt(p) == (p, "");
    assert p + "_translated" + ".po" == "locale/.po_translated.po";
  }

  /** A file met while walking the input directory, `rel` being its path
      relative to the input directory: the output is the file's path under
      the output directory with EVERY `.po` in it replaced by
      `suffix + ".po"`, directory names included. */
  function MultiDirOutput(outRoot: string, rel: string, suffix: string): (r: string)
    ensures suffix == "" ==> r == Join(outRoot, rel)
  {
    ReplaceSelf(Join(outRoot, rel), ".po");
    assert suffix == "" ==> suffix + ".po" == ".po";
    ReplaceAll(Join(outRoot, rel), ".po", suffix + ".po")
  }

  /** Where `u` has no `.po` and `t` starts with a dot, no `.po` of `u + t`
      starts inside `u`: one crossing into `t` would need `t` to start with
      `p` or `o`. */
  lemma PoNotBefore(u: string, t: string)
    requires !Occurs(u, ".po") && |t| > 0 && t[0] == '.'
    ensures forall i :: 0 <= i < |u| ==> !OccursAt(u + t, ".po", i)
  {
    forall i | 0 <= i < |u|
      ensures !OccursAt(u + t, ".po", i)
    {
      var s := u + t;
      if i + 3 <= |u| {
        assert s[i..i + 3] == u[i..i + 3];
        assert !OccursAt(u, ".po", i);
      } else {
        assert s[|u|] == '.';
      }
    }
  }

  /** When the only `.po` in the joined path is the final one, directory
      mode names the output as file mode does. */
  lemma MultiDirOutputSingleOccurrence(outRoot: string, rel: string, suffix: string, stem: string)
    requires Join(outRoot, rel) == stem + ".po"
    requires !Occurs(stem, ".po")
    ensures MultiDirOutput(outRoot, rel, suffix) == stem + suffix + ".po"
  {
    PoNotBefore(stem, ".po");
    ReplaceSkipClean(stem, ".po", ".po", suffix + ".po");
    ReplaceHead(".po", "", suffix + ".po");
    assert ".po" + "" == ".po";
  }

  /** A directory whose name contains `.po` is renamed in the output path
      too: with `.po` once inside a directory name and once at the end, both
      occurrences gain the suffix (so `out` and `a.pot/b.po` give
      `out/a_t.pot/b_t.po`). */
  lemma MultiDirOutputRenamesDirectories(outRoot: string, rel: string, suffix: string, a: string, b: string)
    requires Join(outRoot, rel) == a + (".po" + (b + ".po"))
    requires !Occurs(a, ".po") && !Occurs(b, ".po")
    ensures MultiDirOutput(outRoot, rel, suffix) == a + (suffix + ".po" + (b + (suffix + ".po")))
  {
    var k := ".po";
    var v := suffix + ".po";
    PoNotBefore(a, k + (b + k));
    ReplaceSkipClean(a, k + (b + k), k, v);
    ReplaceHead(k, b + k, v);
    PoNotBefore(b, k);
    ReplaceSkipClean(b, k, k, v);
    ReplaceHead(k, "", v);
    assert k + "" == k;
  }

  /** Directory mode naming the output as file mode does: only the final
      extension of the file's path under the output directory changes. */
  function MultiDirOutputFixed(outRoot: string, rel: string, suffix: string): (r: string)
    ensures PlainPoPath(Join(outRoot, rel)) ==>
      r == Join(outRoot, rel)[..|Join(outRoot, rel)| - 3] + suffix + ".po"
  {
    var p := Join(outRoot, rel);
    SplitExtPo(p);
    SplitExt(p).0 + suffix + ".po"
  }

  /** With the fix, a `.po` inside a directory name stays as it is and only
      the file gains the suffix (`out` and `a.pot/b.po` give
      `out/a.pot/b_t.po`). */
  lemma MultiDirOutputFixedKeepsDirectories(outRoot: string, rel: string, suffix: string, a: string, b: string)
    requires Join(outRoot, rel) == a + (".po" + (b + ".po"))
    requires PlainPoPath(Join(outRoot, rel))
    ensures MultiDirOutputFixed(outRoot, rel, suffix) == a + (".po" + (b + (suffix + ".po")))
  {
    var p := Join(outRoot, rel);
    var stem := a + (".po" + b);
    assert p == stem + ".po";
    assert p[..|p| - 3] == stem;
    assert stem + suffix + ".po" == a + (".po" + (b + (suffix + ".po")));
  }

  /** Where the only `.po` is the final one, the fix changes nothing. */
  lemma MultiDirOutputFixedAgrees(outRoot: string, rel: string, suffix: string, stem: string)
    requires Join(outRoot, rel) == stem + ".po"
    requires !Occurs(stem, ".po")
    requires PlainPoPath(Join(outRoot, rel))
    ensures MultiDirOutputFixed(outRoot, rel, suffix) == MultiDirOutput(outRoot, rel, suffix)
  {
    MultiDirOutputSingleOccurrence(outRoot, rel, suffix, stem);
    var p := Join(outRoot, rel);
    assert p[..|p| - 3] == stem;
  }

  // ---------------------------------------------------------------------
  // Multi-Translator.py, `_process_single_file`: saving the output
  // ---------------------------------------------------------------------

  /** Why saving a translated catalogue fails before anything is written. */
  datatype SaveError = NoDirectoryName

  /** `os.makedirs(os.path.dirname(output), exist_ok=True)` ahead of
      `po.save(output)`: the directory is created (or found) and the save
      goes ahead, except that `makedirs` of an empty name raises, so an
      output path without a slash is never saved. */
  function SaveDirectory(output: string): (r: Result<string, SaveError>)
    ensures r.Failure? <==> SlashFree(output)
    ensures r.Success? ==> StartsWith(output, r.value)
  {
    var d := DirName(output);
    DirNameEmpty(output);
    if d == "" then Failure(NoDirectoryName) else Success(d)
  }

  /** No slash in `p`. */
  predicate SlashFree(p: string) {
    forall i :: 0 <= i < |p| ==> p[i] != '/'
  }

  /** `dirname` is empty exactly for a path without a slash. */
  lemma DirNameEmpty(p: string)
    ensures DirName(p) == "" <==> SlashFree(p)
  {
    var sep := RFind(p, '/');
    if sep == -1 {
      assert p[..sep + 1] == [];
    } else {
      assert p[..sep + 1] != [];
      assert !SlashFree(p);
    }
  }

  /** File mode on a bare `.po` name in the working directory, with a suffix
      that has no slash: the output path has no directory part, so the save
      fails after the whole catalogue has been translated. */
  lemma SaveBareNameFails(name: string, suffix: string)
    requires PlainPoPath(name) && SlashFree(name) && SlashFree(suffix)
    ensures MultiFileOutput(name, suffix).Some?
    ensures SaveDirectory(MultiFileOutput(name, suffix).value).Failure?
  {
    var out := name[..|name| - 3] + suffix + ".po";
    assert MultiFileOutput(name, suffix) == Some(out);
    assert SlashFree(out) by {
      forall i | 0 <= i < |out| ensures out[i] != '/' {
        if i < |name| - 3 {
          assert out[i] == name[i];
        } else if i < |name| - 3 + |suffix| {
          assert out[i] == suffix[i - (|name| - 3)];
        } else {
          assert out[i] == ".po"[i - (|name| - 3) - |suffix|];
        }
      }
    }
  }

  /** Saving as evidently intended: an output path without a directory part
      is saved in the working directory, which exists. */
  function SaveDirectoryFixed(output: string): (r: Result<string, SaveError>)
    ensures r.Success?
    ensures SaveDirectory(output).Success? ==> r == SaveDirectory(output)
    ensures SlashFree(output) ==> r == Success("")
  {
    var s := SaveDirectory(output);
    if s.Success? then s else Success("")
  }

  // ---------------------------------------------------------------------
  // SinglePath-Translator.py, `_process_single_file`
  // ---------------------------------------------------------------------

  /** The output is written in the input's own directory:
      `join(dirname(p), splitext(basename(p))[0] + suffix + ".po")`. */
  function SinglePathOutput(p: string, suffix: string): string {
    Join(DirName(p), SplitExt(BaseName(p)).0 + suffix + ".po")
  }

  /** A bare plain `.po` file name keeps its stem and gains the suffix. */
  lemma SinglePathBareName(name: string, suffix: string)
    requires PlainPoPath(name) && RFind(name, '/') == -1
    ensures SinglePathOutput(name, suffix) == name[..|name| - 3] + suffix + ".po"
  {
    assert BaseName(name) == name;
    SplitExtPo(name);
    assert DirName(name) == [];
    JoinEmpty(name[..|name| - 3] + suffix + ".po");
  }

  /** The last slash of `d/name`, for a slash-free `name`, is the one
      after `d`. */
  lemma LastSlashAfter(d: string, name: string)
    requires RFind(name, '/') == -1
    ensures RFind(d + "/" + name, '/') == |d|
    ensures (d + "/" + name)[..|d| + 1] == d + "/"
    ensures (d + "/" + name)[|d| + 1..] == name
  {
    var p := d + "/" + name;
    assert forall i :: |d| < i < |p| ==> p[i] == name[i - |d| - 1];
    RFindIs(p, '/', |d|);
  }

  /** Stripping the one trailing slash of `d/`. */
  lemma StripOneSlash(d: string)
    requires d != [] && d[|d| - 1] != '/'
    ensures !AllSlashes(d + "/")
    ensures RStripSlash(d + "/") == d
  {
    var h := d + "/";
    assert h[|d| - 1] != '/';
    assert h[..|h| - 1] == d;
  }

  /** Splitting `d/name` where `d` does not end in a slash and `name` has
      none: the directory is `d` and the base name is `name`. */
  lemma SplitDirectory(d: string, name: string)
    requires d != [] && d[|d| - 1] != '/'
    requires RFind(name, '/') == -1
    ensures DirName(d + "/" + name) == d
    ensures BaseName(d + "/" + name) == name
  {
    LastSlashAfter(d, name);
    StripOneSlash(d);
  }

  /** Joining a directory not ending in a slash with a relative name. */
  lemma JoinRelative(a: string, b: string)
    requires a != [] && a[|a| - 1] != '/'
    requires b != [] && b[0] != '/'
    ensures Join(a, b) == a + "/" + b
  {
    assert !EndsWith(a, "/") by { assert a[|a| - 1..] != "/"; }
    assert !StartsWith(b, "/") by { assert b[..1] != "/"; }
  }

  /** The output for a plain `.po` file `name` in directory `d`. */
  lemma SinglePathInDirectoryOutput(d: string, name: string, suffix: string)
    requires d != [] && d[|d| - 1] != '/'
    requires PlainPoPath(name) && RFind(name, '/') == -1
    ensures SinglePathOutput(d + "/" + name, suffix) == d + "/" + (name[..|name| - 3] + suffix + ".po")
  {
    SplitDirectory(d, name);
    SplitExtPo(name);
    var out := name[..|name| - 3] + suffix + ".po";
    assert out[0] == name[0];
    JoinRelative(d, out);
  }

  /** A plain `.po` file in directory `d` (not ending in a slash): the output
      sits in the same directory, and it is the input exactly when the
      suffix is empty. */
  lemma SinglePathInDirectory(d: string, name: string, suffix: string)
    requires d != [] && d[|d| - 1] != '/'
    requires PlainPoPath(name) && RFind(name, '/') == -1
    ensures SinglePathOutput(d + "/" + name, suffix) == d + "/" + name <==> suffix == ""
  {
    SinglePathInDirectoryOutput(d, name, suffix);
    var stem := name[..|name| - 3];
    StemAndExtension(name);
    SuffixChangesName(d + "/", stem, suffix);
    assert d + "/" + (stem + suffix + ".po") == (d + "/") + (stem + suffix + ".po");
    assert d + "/" + name == (d + "/") + (stem + ".po");
  }

  /** A plain `.po` name is its stem followed by `.po`. */
  lemma StemAndExtension(name: string)
    requires PlainPoPath(name)
    ensures name == name[..|name| - 3] + ".po"
  {
    assert name[|name| - 3..] == ".po";
  }

  /** Inserting a suffix before `.po` changes the name unless it is empty. */
  lemma SuffixChangesName(d: string, stem: string, suffix: string)
    ensures d + (stem + suffix + ".po") == d + (stem + ".po") <==> suffix == ""
  {
    if d + (stem + suffix + ".po") == d + (stem + ".po") {
      assert |d + (stem + suffix + ".po")| == |d + (stem + ".po")|;
    }
  }

  /** Splitting `d//name`: `dirname` strips both slashes. */
  lemma SplitDoubleSlash(d: string, name: string)
    requires d != [] && d[|d| - 1] != '/'
    requires RFind(name, '/') == -1
    ensures DirName(d + "//" + name) == d
    ensures BaseName(d + "//" + name) == name
  {
    var h := d + "/";
    var p := d + "//" + name;
    assert p == h + "/" + name;
    LastSlashAfter(h, name);
    assert p[..RFind(p, '/') + 1] == d + "//";
    StripTwoSlashes(d);
  }

  /** Stripping both trailing slashes of `d//`. */
  lemma StripTwoSlashes(d: string)
    requires d != [] && d[|d| - 1] != '/'
    ensures !AllSlashes(d + "//")
    ensures RStripSlash(d + "//") == d
  {
    var h := d + "//";
    assert h[|d| - 1] != '/';
    assert h[..|h| - 1] == d + "/";
    StripOneSlash(d);
  }

  /** A doubled slash before the file name is collapsed: the output for
      `d//name` is the output for `d/name`, so with an empty suffix the
      output path differs from the input path. */
  lemma SinglePathDoubleSlash(d: string, name: string, suffix: string)
    requires d != [] && d[|d| - 1] != '/'
    requires PlainPoPath(name) && RFind(name, '/') == -1
    ensures SinglePathOutput(d + "//" + name, suffix) == SinglePathOutput(d + "/" + name, suffix)
    ensures SinglePathOutput(d + "//" + name, "") != d + "//" + name
  {
    SplitDoubleSlash(d, name);
    SplitDirectory(d, name);
    SinglePathInDirectory(d, name, "");
    assert |d + "/" + name| < |d + "//" + name|;
  }
}
