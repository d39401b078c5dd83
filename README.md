# Image loader of the ML_Test image classifier

The ML_Test console program trains an image classifier with ML.NET. Before training, it
turns a folder tree into a list of labelled examples. `LoadImagesFromDirectory` does
this in the following steps:

- It lists every file under the folder, recursively.
- It skips every file whose extension is not exactly `.jpg`, `.png` or `.jpeg`. The
  comparison is case-sensitive.
- It yields one `ImageData` record per remaining file. The record holds the file's path
  as given and a class label.

The label comes from one of two sources:

- In the default mode, it is the name of the directory that directly holds the file.
- Otherwise, it is the file name cut at its first character that is not a letter.

This project models that loader and the record it produces.

- `Paths.dfy` (module `Paths`) models the path helpers the loader relies on:
  `Path.GetFileName`, `Path.GetDirectoryName`, `Path.GetExtension` and
  `Directory.GetParent(..).Name`. Paths are written with `/` as the directory separator.
  The extension is found by the same backward scan .NET uses:
  - A `.` in a directory name never starts an extension.
  - A trailing `.` gives the empty extension.
- `ImageLoader.dfy` (module `ImageLoader`) holds the rest:
  - `ImageData` as a datatype;
  - the loader as an imperative method, `LoadImagesFromDirectory`, with the source's
    `foreach` loop and `continue`;
  - the label loop, `TruncateAtFirstNonLetter`, with the source's `for` loop, `Substring`
    and `break`;
  - the specification the two methods are proved against:
    - `LoadImages` is the image files of the listing, in order, each paired with its
      label;
    - `LetterPrefix` is the longest all-letter prefix;
  - lemmas about that specification:
    - filtering and its order and multiplicity;
    - which extensions are accepted;
    - folder-mode labels and file-name-mode labels;
    - the empty listing.

The directory listing is an input sequence of paths. `char.IsLetter` is a parameter
`isLetter`, constrained only where a lemma says so. A character outside the Basic
Multilingual Plane is one Dafny `char`. In C# it is two UTF-16 surrogates, and
`char.IsLetter` is false on each of them. So the model matches the C# loop when
`isLetter` agrees with `char.IsLetter` below U+FFFF and is false above it. The lemmas
constrain `isLetter` only on '.', 'd', 'o', 'g' and '1', and there they give the same
answers as `char.IsLetter`.

In file-name mode the loop cuts the name at its first non-letter
(ML_Test/Program.cs:200-204). A file name that starts with a non-letter, such as
`1cat.jpg`, therefore gets the empty label; see `FileNameLabel`.

## Model

| member | source | states |
|---|---|---|
| ImageLoader.LoadImagesFromDirectory | ML_Test/Program.cs:181-216 | The records the loop yields are exactly the image files of the listing, in listing order, each labelled as its mode requires. The flag defaults to folder mode. |
| ImageLoader.TruncateAtFirstNonLetter | ML_Test/Program.cs:200-207 | The label loop leaves the longest all-letter prefix of the file name. It leaves the whole name when every character is a letter. |
| ImageLoader.LoadImages | ML_Test/Program.cs:185-215 | The reference definition the loop is proved against. There are never more records than listed files. Every record's path has an accepted extension, and no label contains a separator. |
| ImageLoader.Label | ML_Test/Program.cs:193-207 | No label contains a separator, in either mode. In file-name mode the label is a prefix of the file name. |
| ImageLoader.IsImageFile | ML_Test/Program.cs:187-191 | A file is kept only when its file name ends in an accepted extension. |
| ImageLoader.IsImageExtension | ML_Test/Program.cs:187-188 | An accepted extension is 4 or 5 characters long and starts with '.'. |
| ImageLoader.ImageFiles | ML_Test/Program.cs:185-191 | The kept files are no more than the listed files, and every kept file is an image file. |
| ImageLoader.LetterPrefix | ML_Test/Program.cs:200-207 | The label is a prefix of the name and consists only of letters. If it is shorter than the name, the next character is not a letter. |
| ImageLoader.LetterPrefixUnique | ML_Test/Program.cs:200-207 | Those three facts determine the label: any string with them is the letter prefix. |
| ImageLoader.LetterPrefixLongest | ML_Test/Program.cs:200-207 | Every all-letter prefix of the name is a prefix of the label, so the label is the longest one. |
| ImageLoader.FileNameLabel | ML_Test/Program.cs:193-207 | In file-name mode, the label is the longest all-letter prefix of the path's file name and is followed by a non-letter. A file name that starts with a non-letter gets the empty label. |
| ImageLoader.FileNameLabelShorter | ML_Test/Program.cs:187-207 | For a kept file in file-name mode, the label is strictly shorter than the file name, because the extension's '.' is not a letter. |
| ImageLoader.DigitsEndTheLetterPrefix | ML_Test/Program.cs:200-207 | The letter prefix of "dog123.jpg" is "dog". |
| ImageLoader.DigitsEndTheLabel | ML_Test/Program.cs:185-214 | A listing holding only `dir/dog123.jpg` yields, in file-name mode, one record with that path and label "dog". |
| ImageLoader.FolderLabel | ML_Test/Program.cs:194-197 | In folder mode, the file `root/folder/name` is labelled `folder`, the name of its parent directory. |
| ImageLoader.FolderModeRecord | ML_Test/Program.cs:181-214 | With the flag left at its default, a listing holding only `root/folder/stem.jpg` (or `.png`, `.jpeg`) yields one record with that path and label `folder`. |
| ImageLoader.SkippedFile | ML_Test/Program.cs:187-191 | A listing holding only a file whose extension is not one of the three yields no record. |
| ImageLoader.UpperCaseExtensionSkipped | ML_Test/Program.cs:187-191 | The comparison is case-sensitive: a file named `stem.JPG` yields no record. |
| ImageLoader.AcceptedTails | ML_Test/Program.cs:187-191 | The extension `.t` is accepted exactly when `t` is "jpg", "png" or "jpeg". |
| ImageLoader.AcceptedExtensions | ML_Test/Program.cs:187-191 | A file `dir/stem.t` is kept exactly when `t` is "jpg", "png" or "jpeg". The stem may contain further dots. |
| ImageLoader.NoImageFilesNoRecords | ML_Test/Program.cs:183-191 | A listing without image files yields no records. The empty listing is the special case of an empty folder. |
| ImageLoader.LoadImagesSingle | ML_Test/Program.cs:185-214 | A one-file listing yields exactly one record for an image file and none otherwise. |
| ImageLoader.LoadImagesStep | ML_Test/Program.cs:185-214 | Processing one more file appends that file's record when it is an image, and changes nothing otherwise. |
| ImageLoader.LoadImagesAppend | ML_Test/Program.cs:185-214 | Loading a concatenated listing gives the records of the first part followed by those of the second. |
| ImageLoader.LoadImagesMatchesImageFiles | ML_Test/Program.cs:210-214 | There is one record per kept file, in the same order. Each record's ImagePath is the file's path unchanged, and its Label is the file's label. |
| ImageLoader.RecordsAreLabelledImageFiles | ML_Test/Program.cs:185-214 | Every record's path is in the listing and has an accepted extension, and the record's label is the one its mode gives. |
| ImageLoader.Filter | ML_Test/Program.cs:185-191 | Skipping files never adds entries: the kept list is no longer than the listing. Every kept entry is accepted. |
| ImageLoader.FilterAppend | ML_Test/Program.cs:185-191 | Filtering keeps listing order: filtering a concatenation gives the concatenation of the filtered parts. |
| ImageLoader.FilterMultiplicity | ML_Test/Program.cs:185-191 | A kept path occurs in the result exactly as often as in the listing. A skipped path does not occur at all. |
| ImageLoader.FilterMembers | ML_Test/Program.cs:185-191 | A path is in the result exactly when it is in the listing and accepted. |
| ImageLoader.Labelled | ML_Test/Program.cs:210-214 | Labelling gives one record per path, in order. The i-th record holds the i-th path and that path's label. |
| ImageLoader.LabelledAppend | ML_Test/Program.cs:210-214 | Labelling a concatenation labels each part in turn. |
| Paths.LastIndexBefore | ML_Test/Program.cs:193 | The backward scan returns the last occurrence of the character before the bound, or -1 when there is none. |
| Paths.LastIndexUnique | ML_Test/Program.cs:193 | An index holding the character, with none of that character after it, is what the backward scan returns. |
| Paths.FileName | ML_Test/Program.cs:193 | The file name contains no separator. |
| Paths.DirectoryName | ML_Test/Program.cs:196 | If the path contains a separator, it is the directory name, the separator and the file name, in that order. Otherwise the directory name is empty and the file name is the whole path. |
| Paths.SplitJoin | ML_Test/Program.cs:193-196 | Splitting `dir/name` gives back `dir` and `name` when `name` has no separator. |
| Paths.ParentName | ML_Test/Program.cs:196 | The parent name contains no separator. It is empty for a path without a separator. |
| Paths.ParentNameOfJoin | ML_Test/Program.cs:196 | The parent name of `root/folder/name` and of `folder/name` is `folder`. |
| Paths.ExtensionStartBefore | ML_Test/Program.cs:187-188 | The extension scan stops at a '.' with no '.' and no separator after it. When it returns -1, every '.' in the scanned part has a separator after it. |
| Paths.Extension | ML_Test/Program.cs:187-188 | A non-empty extension is a suffix of the path. It starts with '.', is followed by at least one character, and contains no further '.' and no separator. An empty extension means either that the path ends in '.' or that every '.' in the path lies in a directory name. |
| Paths.ExtensionStartUnique | ML_Test/Program.cs:187-188 | Such a '.' is exactly where the extension scan stops. |
| Paths.ExtensionInFileName | ML_Test/Program.cs:187-193 | A non-empty extension has at least two characters, starts with '.', and is a suffix of the file name. |
| Paths.ExtensionOfJoin | ML_Test/Program.cs:187-188 | The extension of `dir/stem.tail` is `.tail`, for a non-empty tail without '.' or separator. |
| Paths.NoMarkNoExtension | ML_Test/Program.cs:187-188 | A file name without '.' has the empty extension, so such a file is never kept. |

## Left out

- Directory.GetFiles: the recursive listing of the file system is an input sequence, in
  whatever order the file system returns it. Missing folders and access errors are not
  modelled.
- char.IsLetter: Unicode letter classes are not modelled. Letters are a parameter
  `isLetter`.
- Lazy enumeration: the C# method is an iterator that yields records one at a time. The
  model returns the finished sequence, which is what every caller sees once the
  enumeration completes.
- ImageData: in the source, ImageData is a class with settable properties. The model
  uses an immutable value, because the loader only constructs records and never
  updates them.
- Paths.FileName: only '/' separates directories. The '\\' separator, volume prefixes
  and invalid path characters are not modelled.
- Paths.DirectoryName: models Path.GetDirectoryName only on full, normalised paths.
  The normalisation .NET applies is not modelled: removing `.` and `..` segments,
  collapsing repeated separators, and keeping the root for a file directly under it.
  For example, the model gives "a/" for "a//b" where .NET gives "a".
- Paths.ParentName: Directory.GetParent first calls Path.GetFullPath, which resolves the
  path against the current directory and removes `.` and `..` segments and repeated
  separators. The model does none of this. So `./a.jpg` gets the parent name ".", and
  `a//b.jpg` and separator-free paths get "". A file directly under the root also gets
  "", where .NET gives the root itself. Both call sites, ML_Test/Program.cs:19-21 and
  26-27, list folders built with Path.GetFullPath and Path.Combine. Those are absolute
  and normalised, so every listed path has the shape `root/.../folder/name` that the
  model covers.
- The rest of ML_Test/Program.cs is not part of this model. This covers the following
  parts of Main:
  - the ML.NET preprocessing pipelines;
  - the TrainTestSplit calls into training, validation and test sets (lines 52-56);
  - training the classifier (line 78);
  - the prediction runs on the test and prediction sets, with the console question
    for how many images to show (lines 83-96).

  It also covers RunSingleImage, RunUserImages, RunMultipleImages, OutputPrediction,
  ModelInput and ModelOutput. All of these are calls into ML.NET and console I/O.
- ML_Test/SentimentModel/Program.cs is not part of this model.
