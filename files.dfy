/** Which directory entries are processed as images, and what each output
    file is called.

    A file name's extension and stem follow `std::filesystem::path`: the
    extension starts at the last `.` of the file name, unless that `.` is its
    first character or the name is `.` or `..`, in which case there is none;
    the stem is what precedes the extension. */
module ImageFiles {

  datatype Option<T> = None | Some(value: T)

  /** A directory entry as the directory iterator yields it: the entry's
      file name and whether it is a regular file. */
  datatype Entry = Entry(name: string, isRegularFile: bool)

  /** The extensions the collection loop accepts, in lower case. */
  const ImageExtensions: set<string> := {".jpg", ".jpeg", ".png", ".bmp", ".tiff", ".webp"}

  /** The suffix appended to the stem of every output file. */
  const UpscaledSuffix: string := "_upscaled"

  /** The position of the last `c` in `s`, if any. */
  function LastIndexOf(s: string, c: char): (r: Option<nat>)
    ensures r.Some? ==> r.value < |s| && s[r.value] == c && forall k :: r.value < k < |s| ==> s[k] != c
    ensures r.None? ==> c !in s
  {
    if |s| == 0 then None
    else if s[|s| - 1] == c then Some(|s| - 1)
    else LastIndexOf(s[..|s| - 1], c)
  }

  /** `path::extension()` of a file name: empty, or a `.` followed by no other `.`. */
  function Extension(name: string): (ext: string)
    ensures |ext| <= |name| && ext == name[|name| - |ext|..]
    ensures ext == [] || (ext[0] == '.' && '.' !in ext[1..] && |ext| < |name|)
    ensures ext != [] <==> name != ".." && exists k :: 0 < k < |name| && name[k] == '.'
  {
    if name == "." || name == ".." then ""
    else match LastIndexOf(name, '.')
      case None => ""
      case Some(k) => if k == 0 then "" else name[k..]
  }

  /** `path::stem()` of a file name: the name without its extension. */
  function Stem(name: string): string
  {
    name[..|name| - |Extension(name)|]
  }

  /** `path::filename()`: what follows the last `/` of a path. */
  function FileName(path: string): string
  {
    match LastIndexOf(path, '/')
    case None => path
    case Some(k) => path[k + 1..]
  }

  /** `::tolower` in the "C" locale: only `A` to `Z` change. */
  function ToLowerAscii(c: char): char
  {
    if 'A' <= c <= 'Z' then (c as int + 32) as char else c
  }

  /** The string after `std::transform(..., ::tolower)`. */
  function Lower(s: string): string
  {
    seq(|s|, i requires 0 <= i < |s| => ToLowerAscii(s[i]))
  }

  /** Two strings that are equal once both are lower-cased by ASCII rules. */
  predicate EqualIgnoringAsciiCase(a: string, b: string)
  {
    |a| == |b| && forall i :: 0 <= i < |a| ==> ToLowerAscii(a[i]) == ToLowerAscii(b[i])
  }

  /** The extension test of the collection loop. */
  predicate IsImageExtension(ext: string)
  {
    Lower(ext) in ImageExtensions
  }

  /** An entry the collection loop keeps: a regular file with an image extension. */
  predicate Keep(e: Entry)
  {
    e.isRegularFile && IsImageExtension(Extension(e.name))
  }

  /** The image list after the collection loop has seen `entries`. */
  function Selected(entries: seq<Entry>): seq<string>
  {
    if entries == [] then []
    else Selected(entries[..|entries| - 1]) +
         (if Keep(entries[|entries| - 1]) then [entries[|entries| - 1].name] else [])
  }

  /** The output path of the image called `name`: the output folder, a `/`,
      the stem, `_upscaled` and the extension as it was (not lower-cased). */
  function OutputPath(outputFolder: string, name: string): string
  {
    outputFolder + "/" + Stem(name) + UpscaledSuffix + Extension(name)
  }

  /** The collection loop: appends, in enumeration order, the name of every
      entry that is a regular file whose extension, lower-cased, is one of
      the six image extensions. */
  method CollectImages(entries: seq<Entry>) returns (images: seq<string>)
    ensures images == Selected(entries)
  {
    images := [];
    var i := 0;
    while i < |entries|
      invariant i <= |entries|
      invariant images == Selected(entries[..i])
    {
      var e := entries[i];
      assert entries[..i + 1][..i] == entries[..i];
      if !e.isRegularFile {
        i := i + 1;
        continue;
      }
      var ext := Lower(Extension(e.name));
      if ext == ".jpg" || ext == ".jpeg" || ext == ".png" || ext == ".bmp" || ext == ".tiff" || ext == ".webp" {
        images := images + [e.name];
      }
      i := i + 1;
    }
    assert entries[..i] == entries;
  }

  // ---------------------------------------------------------------------
  // Properties of the selection
  // ---------------------------------------------------------------------

  /** A name is in the image list exactly when some entry with that name is kept. */
  lemma SelectedMembers(entries: seq<Entry>, name: string)
    ensures name in Selected(entries) <==>
              exists k :: 0 <= k < |entries| && entries[k].name == name && Keep(entries[k])
  {
    if name in Selected(entries) {
      var k := SelectedFrom(entries, name);
    }
    if exists k :: 0 <= k < |entries| && entries[k].name == name && Keep(entries[k]) {
      var k :| 0 <= k < |entries| && entries[k].name == name && Keep(entries[k]);
      KeptIsSelected(entries, k);
    }
  }

  /** Every name in the image list comes from a kept entry. */
  lemma {:induction false} SelectedFrom(entries: seq<Entry>, name: string) returns (k: nat)
    requires name in Selected(entries)
    ensures k < |entries| && entries[k].name == name && Keep(entries[k])
  {
    var init := entries[..|entries| - 1];
    var last := entries[|entries| - 1];
    if name in Selected(init) {
      k := SelectedFrom(init, name);
      assert entries[k] == init[k];
    } else {
      k := |entries| - 1;
    }
  }

  /** Every kept entry's name is in the image list. */
  lemma {:induction false} KeptIsSelected(entries: seq<Entry>, k: nat)
    requires k < |entries| && Keep(entries[k])
    ensures entries[k].name in Selected(entries)
  {
    var init := entries[..|entries| - 1];
    if k < |init| {
      KeptIsSelected(init, k);
      assert init[k] == entries[k];
    }
  }

  /** Selection keeps enumeration order: selecting from two consecutive runs
      of entries gives the two selections one after the other. */
  lemma {:induction false} SelectedAppend(a: seq<Entry>, b: seq<Entry>)
    ensures Selected(a + b) == Selected(a) + Selected(b)
    decreases |b|
  {
    if b == [] {
      assert a + b == a;
    } else {
      var b' := b[..|b| - 1];
      SelectedAppend(a, b');
      assert (a + b)[..|a + b| - 1] == a + b';
      assert (a + b)[|a + b| - 1] == b[|b| - 1];
    }
  }

  /** The extension test ignores ASCII case: it holds exactly when the
      extension equals one of the six literals up to ASCII case. */
  lemma ImageExtensionIgnoresCase(ext: string)
    ensures IsImageExtension(ext) <==> exists lit :: lit in ImageExtensions && EqualIgnoringAsciiCase(ext, lit)
  {
    forall lit | lit in ImageExtensions
      ensures Lower(ext) == lit <==> EqualIgnoringAsciiCase(ext, lit)
    {
      assert Lower(lit) == lit;
      if EqualIgnoringAsciiCase(ext, lit) {
        assert forall i :: 0 <= i < |lit| ==> ToLowerAscii(lit[i]) == lit[i];
        assert Lower(ext) == lit;
      }
    }
  }

  /** The filter ignores the case of the extension. */
  lemma KeepUpperCase()
    ensures Keep(Entry("Photo.JPG", true))
    ensures Keep(Entry("scan.TiFf", true))
  {
    LastIndexOfIs("Photo.JPG", '.', 5);
    assert Extension("Photo.JPG") == ".JPG";
    assert Lower(".JPG") == ".jpg";
    LastIndexOfIs("scan.TiFf", '.', 4);
    assert Extension("scan.TiFf") == ".TiFf";
    assert Lower(".TiFf") == ".tiff";
  }

  /** A name with two extensions is judged by the last one only. */
  lemma KeepLastExtension()
    ensures !Keep(Entry("archive.png.txt", true))
    ensures Keep(Entry("notes.txt.webp", true))
  {
    LastIndexOfIs("archive.png.txt", '.', 11);
    assert Extension("archive.png.txt") == ".txt";
    assert Lower(".txt") == ".txt";
    LastIndexOfIs("notes.txt.webp", '.', 9);
    assert Extension("notes.txt.webp") == ".webp";
    assert Lower(".webp") == ".webp";
  }

  /** A dot-file has no extension, `.tif` is not among the six, and
      entries that are not regular files are skipped. */
  lemma KeepRejects()
    ensures !Keep(Entry(".png", true))
    ensures !Keep(Entry("scan.tif", true))
    ensures !Keep(Entry("album.png", false))
  {
    LastIndexOfIs(".png", '.', 0);
    assert Extension(".png") == "";
    assert Lower("") == "";
    LastIndexOfIs("scan.tif", '.', 4);
    assert Extension("scan.tif") == ".tif";
    assert Lower(".tif") == ".tif";
  }

  // ---------------------------------------------------------------------
  // Properties of the output name
  // ---------------------------------------------------------------------

  /** `LastIndexOf` is determined by its contract. */
  lemma LastIndexOfIs(s: string, c: char, k: nat)
    requires k < |s| && s[k] == c && forall m :: k < m < |s| ==> s[m] != c
    ensures LastIndexOf(s, c) == Some(k)
  {
  }

  /** Stem and extension split a file name. */
  lemma StemExtension(name: string)
    ensures Stem(name) + Extension(name) == name
  {
  }

  /** The output file name keeps the input's extension, case and all, and
      its stem is the input's stem followed by `_upscaled`; stripping that
      suffix gives the input stem back. The special name `..` is never an
      image (it is not a regular file) and is excluded. */
  lemma OutputNameRoundTrip(name: string)
    requires name != ".."
    ensures var out := Stem(name) + UpscaledSuffix + Extension(name);
            Extension(out) == Extension(name) &&
            Stem(out) == Stem(name) + UpscaledSuffix &&
            Stem(out)[..|Stem(out)| - |UpscaledSuffix|] == Stem(name)
  {
    var s, e := Stem(name), Extension(name);
    var out := s + UpscaledSuffix + e;
    StemExtension(name);
    assert '.' !in UpscaledSuffix;
    assert out != "." && out != "..";
    if e == [] {
      assert out == name + UpscaledSuffix;
      match LastIndexOf(name, '.')
      case None =>
        assert '.' !in out;
      case Some(k) =>
        if name == "." {
          assert out == "._upscaled";
          LastIndexOfIs(out, '.', 0);
        } else {
          assert k == 0;
          LastIndexOfIs(out, '.', k);
        }
    } else {
      var k := |s| + |UpscaledSuffix|;
      assert out[k..] == e;
      LastIndexOfIs(out, '.', k);
    }
    assert Extension(out) == e;
    assert out[..|out| - |e|] == s + UpscaledSuffix;
  }

  /** The file name of the output path is the output name: the folder and
      the `/` are only a prefix. */
  lemma OutputPathFileName(outputFolder: string, name: string)
    requires '/' !in name
    ensures FileName(OutputPath(outputFolder, name)) == Stem(name) + UpscaledSuffix + Extension(name)
    ensures OutputPath(outputFolder, name)[..|outputFolder| + 1] == outputFolder + "/"
  {
    var out := Stem(name) + UpscaledSuffix + Extension(name);
    StemExtension(name);
    assert '/' !in UpscaledSuffix;
    assert OutputPath(outputFolder, name) == outputFolder + "/" + out;
    LastIndexOfIs(OutputPath(outputFolder, name), '/', |outputFolder|);
  }

  /** An example: the extension keeps its upper case. */
  lemma OutputPathExample()
    ensures OutputPath("out", "Photo.JPG") == "out/Photo_upscaled.JPG"
  {
    LastIndexOfIs("Photo.JPG", '.', 5);
    assert Extension("Photo.JPG") == ".JPG";
    assert "Photo.JPG"[..5] == "Photo";
    assert Stem("Photo.JPG") == "Photo";
    assert "out" + "/" + "Photo" + UpscaledSuffix + ".JPG" == "out/Photo_upscaled.JPG";
  }
}
