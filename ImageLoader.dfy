/** The image loader of the ML_Test console program: from the files found
    under a folder it keeps the image files and gives each one a class label,
    taken either from the folder that holds it or from the leading letters of
    its file name.

    The recursive directory listing is an input sequence of paths, in the
    order the file system returned them. `char.IsLetter` is the parameter
    `isLetter`: the model assumes nothing about which characters are letters
    except where a lemma says so in its requires. */
module ImageLoader {
  import opened Paths

  /** One training or prediction example: where the image is and its class. */
  datatype ImageData = ImageData(ImagePath: string, Label: string)

  /** The extensions the loader accepts, compared case-sensitively. */
  const JpgExtension: string := ".jpg"
  const PngExtension: string := ".png"
  const JpegExtension: string := ".jpeg"

  /** Whether an extension is one the loader accepts. */
  function IsImageExtension(ext: string): (accepted: bool)
    ensures accepted ==> 4 <= |ext| <= 5 && ext[0] == ExtensionMark
  {
    ext == JpgExtension || ext == PngExtension || ext == JpegExtension
  }

  /** Whether the loader keeps a file: only when its file name ends in one of
      the accepted extensions. */
  function IsImageFile(path: string): (accepted: bool)
    ensures accepted ==>
              var name, ext := FileName(path), Extension(path);
              IsImageExtension(ext) && |ext| <= |name| && name[|name| - |ext|..] == ext
  {
    ExtensionInFileName(path);
    IsImageExtension(Extension(path))
  }

  /** The longest prefix of `name` made of letters only: `name` cut at its
      first non-letter. */
  function LetterPrefix(name: string, isLetter: char -> bool): (lbl: string)
    ensures |lbl| <= |name| && lbl == name[..|lbl|]
    ensures forall j :: 0 <= j < |lbl| ==> isLetter(lbl[j])
    ensures |lbl| < |name| ==> !isLetter(name[|lbl|])
  {
    if name == [] || !isLetter(name[0]) then []
    else [name[0]] + LetterPrefix(name[1..], isLetter)
  }

  /** The three facts LetterPrefix ensures single out its result. */
  lemma {:induction false} LetterPrefixUnique(name: string, isLetter: char -> bool, lbl: string)
    requires |lbl| <= |name| && lbl == name[..|lbl|]
    requires forall j :: 0 <= j < |lbl| ==> isLetter(lbl[j])
    requires |lbl| < |name| ==> !isLetter(name[|lbl|])
    ensures lbl == LetterPrefix(name, isLetter)
  {
    if lbl != [] {
      assert lbl[0] == name[0];
      assert lbl[1..] == name[1..][..|lbl| - 1];
      LetterPrefixUnique(name[1..], isLetter, lbl[1..]);
      assert lbl == [lbl[0]] + lbl[1..];
    }
  }

  /** Every all-letter prefix of `name` is a prefix of its letter prefix. */
  lemma LetterPrefixLongest(name: string, isLetter: char -> bool, p: string)
    requires |p| <= |name| && p == name[..|p|]
    requires forall j :: 0 <= j < |p| ==> isLetter(p[j])
    ensures |p| <= |LetterPrefix(name, isLetter)|
    ensures p == LetterPrefix(name, isLetter)[..|p|]
  {
    var r := LetterPrefix(name, isLetter);
    assert |p| <= |r|;
  }

  /** The label the loader gives the file at `path`: the name of its parent
      directory, or the leading letters of its file name. */
  function Label(path: string, isLetter: char -> bool, useFolderNameAsLabel: bool): (lbl: string)
    ensures Separator !in lbl
    ensures !useFolderNameAsLabel ==> |lbl| <= |FileName(path)| && lbl == FileName(path)[..|lbl|]
  {
    if useFolderNameAsLabel then ParentName(path)
    else LetterPrefix(FileName(path), isLetter)
  }

  /** The entries of `files` that `keep` accepts, in their original order. */
  function Filter(files: seq<string>, keep: string -> bool): (kept: seq<string>)
    ensures |kept| <= |files|
    ensures forall i :: 0 <= i < |kept| ==> keep(kept[i])
  {
    if files == [] then []
    else (if keep(files[0]) then [files[0]] else []) + Filter(files[1..], keep)
  }

  /** The image files of a listing, in listing order. */
  function ImageFiles(files: seq<string>): (kept: seq<string>)
    ensures |kept| <= |files|
    ensures forall i :: 0 <= i < |kept| ==> IsImageFile(kept[i])
  {
    Filter(files, IsImageFile)
  }

  /** Each path paired with its label, in order. */
  function Labelled(paths: seq<string>, labelOf: string -> string): (records: seq<ImageData>)
    ensures |records| == |paths|
    ensures forall i :: 0 <= i < |paths| ==> records[i] == ImageData(paths[i], labelOf(paths[i]))
  {
    if paths == [] then []
    else [ImageData(paths[0], labelOf(paths[0]))] + Labelled(paths[1..], labelOf)
  }

  /** What the loader yields for a listing: one record per image file, in
      listing order, holding the path as given and its label. */
  function LoadImages(files: seq<string>, isLetter: char -> bool, useFolderNameAsLabel: bool := true): (images: seq<ImageData>)
    ensures |images| <= |files|
    ensures forall i :: 0 <= i < |images| ==>
              IsImageFile(images[i].ImagePath) && Separator !in images[i].Label
  {
    Labelled(ImageFiles(files), path => Label(path, isLetter, useFolderNameAsLabel))
  }

  /** The label loop of the loader: scan the file name and cut it at the first
      character that is not a letter. */
  method TruncateAtFirstNonLetter(name: string, isLetter: char -> bool) returns (lbl: string)
    ensures lbl == LetterPrefix(name, isLetter)
  {
    lbl := name;
    var i := 0;
    while i < |lbl|
      invariant 0 <= i <= |lbl| && lbl == name
      invariant forall j :: 0 <= j < i ==> isLetter(name[j])
    {
      if !isLetter(lbl[i]) {
        lbl := lbl[..i];
        break;
      }
      i := i + 1;
    }
    LetterPrefixUnique(name, isLetter, lbl);
  }

  /** The loader: walk the listing, skip every file whose extension is not
      exactly one of the accepted ones, and emit a record for each other file. */
  method LoadImagesFromDirectory(files: seq<string>, isLetter: char -> bool, useFolderNameAsLabel: bool := true)
    returns (images: seq<ImageData>)
    ensures images == LoadImages(files, isLetter, useFolderNameAsLabel)
  {
    images := [];
    for k := 0 to |files|
      invariant images == LoadImages(files[..k], isLetter, useFolderNameAsLabel)
    {
      var file := files[k];
      LoadImagesStep(files, k, isLetter, useFolderNameAsLabel);
      var ext := Extension(file);
      if ext != JpgExtension && ext != PngExtension && ext != JpegExtension {
        continue;
      }
      var lbl := FileName(file);
      if useFolderNameAsLabel {
        lbl := ParentName(file);
      } else {
        lbl := TruncateAtFirstNonLetter(lbl, isLetter);
      }
      images := images + [ImageData(file, lbl)];
    }
    assert files[..|files|] == files;
  }

  /** Filtering a concatenated listing filters each part in turn: the order of
      the kept entries is the order of the listing. */
  lemma {:induction false} FilterAppend(a: seq<string>, b: seq<string>, keep: string -> bool)
    ensures Filter(a + b, keep) == Filter(a, keep) + Filter(b, keep)
  {
    if a == [] {
      assert a + b == b;
    } else {
      var head := if keep(a[0]) then [a[0]] else [];
      calc {
        Filter(a + b, keep);
        { assert (a + b)[0] == a[0]; assert (a + b)[1..] == a[1..] + b; }
        head + Filter(a[1..] + b, keep);
        { FilterAppend(a[1..], b, keep); }
        head + (Filter(a[1..], keep) + Filter(b, keep));
        (head + Filter(a[1..], keep)) + Filter(b, keep);
      }
    }
  }

  /** Each accepted entry occurs in the filtered listing exactly as often as
      in the listing, and every other entry not at all. */
  lemma {:induction false} FilterMultiplicity(files: seq<string>, keep: string -> bool, p: string)
    ensures multiset(Filter(files, keep))[p] == if keep(p) then multiset(files)[p] else 0
  {
    if files != [] {
      FilterMultiplicity(files[1..], keep, p);
      assert files == [files[0]] + files[1..];
      var head := if keep(files[0]) then [files[0]] else [];
      assert multiset(Filter(files, keep)) == multiset(head) + multiset(Filter(files[1..], keep));
      assert multiset(files) == multiset([files[0]]) + multiset(files[1..]);
    }
  }

  /** An entry is kept exactly when it is in the listing and accepted. */
  lemma {:induction false} FilterMembers(files: seq<string>, keep: string -> bool, p: string)
    ensures p in Filter(files, keep) <==> p in files && keep(p)
  {
    if files != [] {
      FilterMembers(files[1..], keep, p);
      assert p in files <==> p == files[0] || p in files[1..];
    }
  }

  /** A one-file listing yields a record exactly when the file is an image. */
  lemma LoadImagesSingle(file: string, isLetter: char -> bool, useFolderNameAsLabel: bool)
    ensures LoadImages([file], isLetter, useFolderNameAsLabel)
      == if IsImageFile(file) then [ImageData(file, Label(file, isLetter, useFolderNameAsLabel))] else []
  {
    assert [file][1..] == [];
  }

  /** Labelling a concatenation labels each part in turn. */
  lemma LabelledAppend(a: seq<string>, b: seq<string>, labelOf: string -> string)
    ensures Labelled(a + b, labelOf) == Labelled(a, labelOf) + Labelled(b, labelOf)
  {
    var r, ra, rb := Labelled(a + b, labelOf), Labelled(a, labelOf), Labelled(b, labelOf);
    forall i | 0 <= i < |r|
      ensures r[i] == (ra + rb)[i]
    {
      if i >= |a| {
        assert (a + b)[i] == b[i - |a|];
      }
    }
  }

  /** Loading one more file of the listing appends its record, if any. */
  lemma LoadImagesStep(files: seq<string>, k: nat, isLetter: char -> bool, useFolderNameAsLabel: bool)
    requires k < |files|
    ensures LoadImages(files[..k + 1], isLetter, useFolderNameAsLabel)
      == LoadImages(files[..k], isLetter, useFolderNameAsLabel)
       + if IsImageFile(files[k]) then [ImageData(files[k], Label(files[k], isLetter, useFolderNameAsLabel))] else []
  {
    assert files[..k + 1] == files[..k] + [files[k]];
    LoadImagesAppend(files[..k], [files[k]], isLetter, useFolderNameAsLabel);
    LoadImagesSingle(files[k], isLetter, useFolderNameAsLabel);
  }

  /** Loading a concatenated listing loads each part in turn. */
  lemma LoadImagesAppend(a: seq<string>, b: seq<string>, isLetter: char -> bool, useFolderNameAsLabel: bool)
    ensures LoadImages(a + b, isLetter, useFolderNameAsLabel)
      == LoadImages(a, isLetter, useFolderNameAsLabel) + LoadImages(b, isLetter, useFolderNameAsLabel)
  {
    FilterAppend(a, b, IsImageFile);
    LabelledAppend(ImageFiles(a), ImageFiles(b), path => Label(path, isLetter, useFolderNameAsLabel));
  }

  /** The records match the image files one for one: same count, same order,
      each record holding the file's path unchanged and that file's label. */
  lemma LoadImagesMatchesImageFiles(files: seq<string>, isLetter: char -> bool, useFolderNameAsLabel: bool)
    ensures var images, kept := LoadImages(files, isLetter, useFolderNameAsLabel), ImageFiles(files);
      |images| == |kept| &&
      forall i :: 0 <= i < |kept| ==>
        images[i].ImagePath == kept[i] && images[i].Label == Label(kept[i], isLetter, useFolderNameAsLabel)
  {
  }

  /** Every record is an image file of the listing, labelled as the mode says. */
  lemma RecordsAreLabelledImageFiles(files: seq<string>, isLetter: char -> bool, useFolderNameAsLabel: bool)
    ensures forall img :: img in LoadImages(files, isLetter, useFolderNameAsLabel) ==>
      img.ImagePath in files && IsImageFile(img.ImagePath) &&
      img.Label == Label(img.ImagePath, isLetter, useFolderNameAsLabel)
  {
    var images := LoadImages(files, isLetter, useFolderNameAsLabel);
    forall img | img in images
      ensures img.ImagePath in files && IsImageFile(img.ImagePath)
    {
      var i :| 0 <= i < |images| && images[i] == img;
      assert img.ImagePath in ImageFiles(files);
      FilterMembers(files, IsImageFile, img.ImagePath);
    }
  }

  /** The extension `.tail` is accepted exactly when `tail` is "jpg", "png"
      or "jpeg", letter for letter. */
  lemma AcceptedTails(tail: string)
    ensures IsImageExtension([ExtensionMark] + tail) <==> tail == "jpg" || tail == "png" || tail == "jpeg"
  {
    var ext := [ExtensionMark] + tail;
    assert ext[1..] == tail;
  }

  /** A file named `stem.tail` is kept exactly when `tail` is "jpg", "png" or
      "jpeg", letter for letter: "a.JPG" is not kept. */
  lemma AcceptedExtensions(dir: string, stem: string, tail: string)
    requires Separator !in tail
    requires ExtensionMark !in tail && tail != []
    ensures IsImageFile(dir + [Separator] + stem + [ExtensionMark] + tail)
      <==> tail == "jpg" || tail == "png" || tail == "jpeg"
  {
    ExtensionOfJoin(dir, stem, tail);
    AcceptedTails(tail);
  }

  /** A listing without image files yields no records; the empty listing in
      particular. */
  lemma NoImageFilesNoRecords(files: seq<string>, isLetter: char -> bool, useFolderNameAsLabel: bool)
    requires forall p :: p in files ==> !IsImageFile(p)
    ensures LoadImages(files, isLetter, useFolderNameAsLabel) == []
  {
    var kept := ImageFiles(files);
    if kept != [] {
      FilterMembers(files, IsImageFile, kept[0]);
    }
  }

  /** Upper case is a different extension: `stem.JPG` is skipped. */
  lemma UpperCaseExtensionSkipped(dir: string, stem: string, isLetter: char -> bool, useFolderNameAsLabel: bool)
    ensures LoadImages([dir + [Separator] + stem + ".JPG"], isLetter, useFolderNameAsLabel) == []
  {
    var path := dir + [Separator] + stem + ".JPG";
    assert !IsImageFile(path) by {
      assert path == dir + [Separator] + stem + [ExtensionMark] + "JPG";
      AcceptedExtensions(dir, stem, "JPG");
    }
    LoadImagesSingle(path, isLetter, useFolderNameAsLabel);
  }

  /** In folder mode a file `root/folder/name` is labelled `folder`. */
  lemma FolderLabel(root: string, folder: string, name: string, isLetter: char -> bool)
    requires Separator !in folder && Separator !in name
    ensures Label(root + [Separator] + folder + [Separator] + name, isLetter, true) == folder
  {
    ParentNameOfJoin(root, folder, name);
  }

  /** In file-name mode the label is the file name's longest all-letter prefix. */
  lemma FileNameLabel(path: string, isLetter: char -> bool)
    ensures var name, lbl := FileName(path), Label(path, isLetter, false);
      |lbl| <= |name| && lbl == name[..|lbl|] &&
      (forall j :: 0 <= j < |lbl| ==> isLetter(lbl[j])) &&
      (|lbl| < |name| ==> !isLetter(name[|lbl|]))
    ensures var name, lbl := FileName(path), Label(path, isLetter, false);
      |name| > 0 && !isLetter(name[0]) ==> lbl == []
  {
  }

  /** Since '.' is not a letter, the label of an image file in file-name mode
      stops at or before the dot of its extension. */
  lemma FileNameLabelShorter(path: string, isLetter: char -> bool)
    requires IsImageFile(path)
    requires !isLetter(ExtensionMark)
    ensures |Label(path, isLetter, false)| < |FileName(path)|
  {
    var name := FileName(path);
    var ext := Extension(path);
    var lbl := Label(path, isLetter, false);
    var dot := |name| - |ext|;
    assert name[dot] == ext[0] == ExtensionMark;
  }

  /** The letter prefix of "dog123.jpg" is "dog". */
  lemma DigitsEndTheLetterPrefix(isLetter: char -> bool)
    requires isLetter('d') && isLetter('o') && isLetter('g') && !isLetter('1')
    ensures LetterPrefix("dog123.jpg", isLetter) == "dog"
  {
    var name := "dog123.jpg";
    assert name[..3] == "dog" && name[3] == '1';
    LetterPrefixUnique(name, isLetter, "dog");
  }

  /** A file name such as "dog123.jpg" under any folder is labelled "dog". */
  lemma DigitsEndTheLabel(dir: string, isLetter: char -> bool)
    requires isLetter('d') && isLetter('o') && isLetter('g') && !isLetter('1')
    ensures LoadImages([dir + "/dog123.jpg"], isLetter, false) == [ImageData(dir + "/dog123.jpg", "dog")]
  {
    var path := dir + "/dog123.jpg";
    DogPathParts(dir);
    AcceptedExtensions(dir, "dog123", "jpg");
    DigitsEndTheLetterPrefix(isLetter);
    LoadImagesSingle(path, isLetter, false);
  }

  /** `dir/dog123.jpg` read as a stem and an extension, and its file name. */
  lemma DogPathParts(dir: string)
    ensures dir + "/dog123.jpg" == dir + [Separator] + "dog123" + [ExtensionMark] + "jpg"
    ensures FileName(dir + "/dog123.jpg") == "dog123.jpg"
  {
    assert dir + "/dog123.jpg" == dir + [Separator] + "dog123.jpg";
    SplitJoin(dir, "dog123.jpg");
  }

  /** The path `root/folder/stem.tail`. */
  function ImagePathUnder(root: string, folder: string, stem: string, tail: string): (path: string)
  {
    root + [Separator] + folder + [Separator] + stem + [ExtensionMark] + tail
  }

  /** The two ways of reading `root/folder/stem.tail`: a directory followed by
      `stem.tail`, and `root/folder` followed by a file name. */
  lemma ImagePathUnderParts(root: string, folder: string, stem: string, tail: string)
    ensures ImagePathUnder(root, folder, stem, tail) == (root + [Separator] + folder) + [Separator] + stem + [ExtensionMark] + tail
    ensures ImagePathUnder(root, folder, stem, tail) == root + [Separator] + folder + [Separator] + (stem + [ExtensionMark] + tail)
  {
  }

  /** In folder mode a one-file listing `root/folder/stem.tail` with an
      accepted extension yields one record labelled `folder`. */
  lemma FolderModeRecord(root: string, folder: string, stem: string, tail: string, isLetter: char -> bool)
    requires Separator !in folder && Separator !in stem && Separator !in tail && ExtensionMark !in tail
    requires tail == "jpg" || tail == "png" || tail == "jpeg"
    ensures LoadImages([ImagePathUnder(root, folder, stem, tail)], isLetter) == [ImageData(ImagePathUnder(root, folder, stem, tail), folder)]
  {
    var path := ImagePathUnder(root, folder, stem, tail);
    ImagePathUnderParts(root, folder, stem, tail);
    AcceptedExtensions(root + [Separator] + folder, stem, tail);
    FolderLabel(root, folder, stem + [ExtensionMark] + tail, isLetter);
    LoadImagesSingle(path, isLetter, true);
  }

  /** A one-file listing `root/folder/stem.tail` whose extension is not
      accepted yields nothing. */
  lemma SkippedFile(root: string, folder: string, stem: string, tail: string, isLetter: char -> bool, useFolderNameAsLabel: bool)
    requires Separator !in tail && ExtensionMark !in tail && tail != []
    requires tail != "jpg" && tail != "png" && tail != "jpeg"
    ensures LoadImages([ImagePathUnder(root, folder, stem, tail)], isLetter, useFolderNameAsLabel) == []
  {
    var path := ImagePathUnder(root, folder, stem, tail);
    ImagePathUnderParts(root, folder, stem, tail);
    AcceptedExtensions(root + [Separator] + folder, stem, tail);
    LoadImagesSingle(path, isLetter, useFolderNameAsLabel);
  }
}
