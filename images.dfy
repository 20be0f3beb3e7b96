/**
 * `get_random_image` and `convert_image_to_png`: which directory entries are
 * background candidates, which one is chosen, the `.webp` to `.png` rewrite of
 * the chosen path, and the display name derived from it.
 *
 * The directory is described by two inputs: whether it exists and the names
 * `os.listdir` returns, in that order. The draw of `random.choice` is an input
 * `roll`; the candidate at position `DrawIndex(roll, n)`, that is `roll % n`,
 * is chosen, so that roll values below n pick each of the n candidates.
 */
module Images {
  import opened Text
  import opened Paths

  const ImageDirectory: string := "image/warrior/"

  /** The suffixes `get_random_image` accepts; they carry no dot, so "xpng" matches too. */
  const ImageSuffixes: seq<string> := ["png", "jpg", "jpeg", "webp"]

  const WebpExtension: string := ".webp"
  const PngExtension: string := ".png"

  /** `img.endswith(('png', 'jpg', 'jpeg', 'webp'))`. */
  predicate HasImageSuffix(name: string) {
    exists suffix :: suffix in ImageSuffixes && EndsWith(name, suffix)
  }

  /** The list comprehension over `os.listdir(image_directory)`, in listing order. */
  function Candidates(names: seq<string>): (images: seq<string>)
    ensures |images| <= |names|
  {
    if names == [] then []
    else (if HasImageSuffix(names[0]) then [names[0]] else []) + Candidates(names[1..])
  }

  /** The candidates are exactly the listed names with an image suffix. */
  lemma {:induction false} CandidatesMembers(names: seq<string>)
    ensures forall x :: x in Candidates(names) <==> x in names && HasImageSuffix(x)
    decreases |names|
  {
    if names != [] {
      CandidatesMembers(names[1..]);
      assert names == [names[0]] + names[1..];
    }
  }

  /** `image_path.replace('.webp', '.png')`: every occurrence, not only the final one. */
  function ConvertedPath(path: string): string {
    Replace(path, WebpExtension, PngExtension)
  }

  lemma ConversionIsSafe()
    ensures SafeRewrite(WebpExtension, PngExtension)
  {
    assert WebpExtension == ['.', 'w', 'e', 'b', 'p'];
    assert PngExtension == ['.', 'p', 'n', 'g'];
  }

  /** The outcome of `get_random_image`: `(None, None)`, or the path to use and its display name. */
  datatype Pick =
    | NoImage
    | Picked(chosen: string, path: string, name: string)
  {
    /** `convert_image_to_png` ran for this pick. */
    predicate Converted() {
      Picked? && EndsWith(chosen, WebpExtension)
    }
  }

  /** The position `random.choice` takes among n candidates for the draw `roll`. */
  function DrawIndex(roll: nat, n: nat): (k: nat)
    requires n > 0
    ensures k < n
    ensures roll < n ==> k == roll
  {
    roll % n
  }

  /** The entry `random.choice(images)` returns for the draw `roll`. */
  function ChosenEntry(names: seq<string>, roll: nat): (c: string)
    requires Candidates(names) != []
    ensures c in Candidates(names)
  {
    var images := Candidates(names);
    images[DrawIndex(roll, |images|)]
  }

  /** The path `get_random_image` goes on with: the converted one for a `.webp` file. */
  function UsablePath(chosen: string): string {
    if EndsWith(chosen, WebpExtension) then ConvertedPath(chosen) else chosen
  }

  /** `get_random_image()` for a directory that exists or not, listing `names`, and draw `roll`. */
  function PickImage(present: bool, names: seq<string>, roll: nat): (p: Pick)
    ensures p.NoImage? <==> !present || Candidates(names) == []
    ensures p.Picked? ==> exists c :: c in Candidates(names) && p.chosen == PathJoin(ImageDirectory, c)
    ensures p.Picked? ==> p.path == UsablePath(p.chosen)
    ensures p.Picked? ==> p.name == Stem(p.path)
  {
    if !present || Candidates(names) == [] then NoImage
    else
      var chosen := PathJoin(ImageDirectory, ChosenEntry(names, roll));
      var path := UsablePath(chosen);
      Picked(chosen, path, Stem(path))
  }

  /** Every candidate can be chosen: a draw below the number of candidates picks that position. */
  lemma EveryCandidateReachable(names: seq<string>, i: nat)
    requires i < |Candidates(names)|
    ensures PickImage(true, names, i).chosen == PathJoin(ImageDirectory, Candidates(names)[i])
  {
  }

  /** The path used is never a `.webp` one; a converted one ends in `.png` and holds no `.webp` at all. */
  lemma UsablePathIsUsable(chosen: string)
    ensures !EndsWith(UsablePath(chosen), WebpExtension)
    ensures EndsWith(chosen, WebpExtension) ==>
      EndsWith(UsablePath(chosen), PngExtension) && !Contains(UsablePath(chosen), WebpExtension)
  {
    if EndsWith(chosen, WebpExtension) {
      var path := ConvertedPath(chosen);
      ConversionIsSafe();
      ReplaceSuffix(chosen, WebpExtension, PngExtension);
      ReplaceLeavesNone(chosen, WebpExtension, PngExtension);
      var n := |path|;
      assert path[n - 4..] == PngExtension;
      assert path[n - 1] == 'g';
    }
  }

  lemma {:induction false} ReplaceAfterPlainPrefix(d: string, c: string, pat: string, rep: string)
    requires pat != []
    requires pat[0] !in d
    ensures Replace(d + c, pat, rep) == d + Replace(c, pat, rep)
    decreases |d|
  {
    if d != [] {
      var s := d + c;
      if |s| >= |pat| {
        assert s[0] != pat[0];
        assert s[..|pat|] != pat;
        assert s[1..] == d[1..] + c;
        ReplaceAfterPlainPrefix(d[1..], c, pat, rep);
      } else {
        ReplaceAbsentShort(c, pat, rep);
      }
    } else {
      assert d + c == c;
    }
  }

  lemma ReplaceAbsentShort(c: string, pat: string, rep: string)
    requires pat != [] && |c| < |pat|
    ensures Replace(c, pat, rep) == c
  {
  }

  lemma {:induction false} ReplaceKeepsOut(s: string, pat: string, rep: string, x: char)
    requires pat != []
    requires x !in s && x !in rep
    ensures x !in Replace(s, pat, rep)
    decreases |s|
  {
    if |s| >= |pat| {
      if s[..|pat|] == pat {
        ReplaceKeepsOut(s[|pat|..], pat, rep, x);
      } else {
        ReplaceKeepsOut(s[1..], pat, rep, x);
      }
    }
  }

  lemma EndsWithAfterDirectory(d: string, c: string, suffix: string)
    requires EndsWith(d, [Sep]) && Sep !in suffix
    ensures EndsWith(d + c, suffix) <==> EndsWith(c, suffix)
  {
    var s := d + c;
    if |suffix| > |c| && |suffix| <= |s| {
      var k := |s| - |suffix|;
      assert s[|d| - 1] == Sep;
      assert s[k..][|d| - 1 - k] == Sep;
    } else if |suffix| <= |c| {
      assert s[|s| - |suffix|..] == c[|c| - |suffix|..];
    }
  }

  /**
   * For a listing entry (which holds no separator) the chosen path is the
   * directory followed by the entry; a `.webp` entry is converted to the entry
   * with every `.webp` replaced, saved beside it. The display name is that file
   * name cut by `splitext`.
   */
  lemma EntryFile(c: string)
    requires Sep !in c
    ensures var chosen := PathJoin(ImageDirectory, c);
      var file := if EndsWith(c, WebpExtension) then Replace(c, WebpExtension, PngExtension) else c;
      && chosen == ImageDirectory + c
      && (EndsWith(chosen, WebpExtension) <==> EndsWith(c, WebpExtension))
      && UsablePath(chosen) == ImageDirectory + file
      && Basename(UsablePath(chosen)) == file
      && Stem(UsablePath(chosen)) == SplitExt(file).0
  {
    assert EndsWith(ImageDirectory, [Sep]);
    BasenameOfJoin(ImageDirectory, c);
    EndsWithAfterDirectory(ImageDirectory, c, WebpExtension);
    if EndsWith(c, WebpExtension) {
      var file := Replace(c, WebpExtension, PngExtension);
      assert '.' !in ImageDirectory;
      ReplaceAfterPlainPrefix(ImageDirectory, c, WebpExtension, PngExtension);
      ReplaceKeepsOut(c, WebpExtension, PngExtension, Sep);
      BasenameOfJoin(ImageDirectory, file);
    }
  }

  /**
   * The directory listing after a pick: a conversion saves the `.png` file into
   * the image directory, where later listings show it (at the end, in this model).
   */
  function ListingAfter(names: seq<string>, p: Pick): (after: seq<string>)
    ensures |names| <= |after| && after[..|names|] == names
  {
    if p.Converted() && Basename(p.path) !in names then names + [Basename(p.path)] else names
  }

  /** The listing after a pick holds the old entries and, after a conversion, the converted file. */
  lemma ListingAfterMembers(names: seq<string>, p: Pick)
    ensures forall x :: x in ListingAfter(names, p) <==> x in names || (p.Converted() && x == Basename(p.path))
  {
  }
}
