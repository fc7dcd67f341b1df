/** The upload policy of `generate_trip`: an uploaded image is kept only when
    its file name passes `allowed_file`; everything else is skipped without an
    error and without aborting the request. */
module Uploads {
  import opened Wrappers
  import opened Text

  /** `ALLOWED_EXTENSIONS` */
  const AllowedExtensions: set<string> := {"png", "jpg", "jpeg", "gif"}

  /** `filename.rsplit('.', 1)[1]` when `'.' in filename`: the text after the
      last dot. */
  function Extension(filename: string): (e: Option<string>)
    ensures e.None? <==> '.' !in filename
    ensures e.Some? ==>
      && |e.value| < |filename|
      && filename[|filename| - |e.value| - 1] == '.'
      && e.value == filename[|filename| - |e.value|..]
      && '.' !in e.value
  {
    match LastIndexOf(filename, '.')
    case None => None
    case Some(i) => Some(filename[i + 1..])
  }

  /** Reference reading of the rule: some dot in the name has no dot after it,
      and the text after it, lower-cased, is an allowed extension. */
  predicate HasAllowedSuffix(filename: string) {
    exists i :: 0 <= i < |filename| && filename[i] == '.' && '.' !in filename[i + 1..]
      && Lower(filename[i + 1..]) in AllowedExtensions
  }

  /** At most one dot has no dot after it. */
  lemma LastDotUnique(f: string, i: int, j: int)
    requires 0 <= i < |f| && f[i] == '.' && '.' !in f[i + 1..]
    requires 0 <= j < |f| && f[j] == '.' && '.' !in f[j + 1..]
    ensures i == j
  {
  }

  /** `allowed_file(filename)` */
  predicate AllowedFile(filename: string) {
    match Extension(filename)
    case None => false
    case Some(e) => Lower(e) in AllowedExtensions
  }

  /** `allowed_file` accepts exactly the names with an allowed suffix. */
  lemma AllowedFileIff(filename: string)
    ensures AllowedFile(filename) <==> HasAllowedSuffix(filename)
  {
    var r := LastIndexOf(filename, '.');
    if r.Some? {
      var j := r.value;
      assert Extension(filename) == Some(filename[j + 1..]);
      if HasAllowedSuffix(filename) {
        var i :| 0 <= i < |filename| && filename[i] == '.' && '.' !in filename[i + 1..]
          && Lower(filename[i + 1..]) in AllowedExtensions;
        LastDotUnique(filename, i, j);
      }
    }
  }

  /** Upper-case extensions are accepted, and only the part after the LAST
      dot counts, even when nothing precedes the dot. */
  lemma AllowedFileAccepts()
    ensures AllowedFile("A.PNG")
    ensures AllowedFile("holiday.photo.Jpeg")
    ensures AllowedFile(".gif")
  {
    assert LastIndexOf("A.PNG", '.') == Some(1);
    assert "A.PNG"[2..] == "PNG";
    assert Lower("PNG") == "png";
    assert LastIndexOf("holiday.photo.Jpeg", '.') == Some(13);
    assert "holiday.photo.Jpeg"[14..] == "Jpeg";
    assert Lower("Jpeg") == "jpeg";
    assert LastIndexOf(".gif", '.') == Some(0);
    assert ".gif"[1..] == "gif";
    assert Lower("gif") == "gif";
  }

  /** A bare extension without a dot, an allowed extension followed by another
      one, an empty extension and an empty name are rejected. */
  lemma AllowedFileRejects()
    ensures !AllowedFile("png")
    ensures !AllowedFile("a.png.exe")
    ensures !AllowedFile("a.")
    ensures !AllowedFile("")
  {
    assert LastIndexOf("a.png.exe", '.') == Some(5);
    assert "a.png.exe"[6..] == "exe";
    assert Lower("exe") == "exe";
    assert "png"[2] != '.' && "png"[1] != '.' && "png"[0] != '.';
    assert LastIndexOf("a.", '.') == Some(1);
    assert "a."[2..] == [];
  }

  lemma LowerSuffix(s: string, i: nat)
    requires i <= |s|
    ensures Lower(s)[i..] == Lower(s[i..])
    ensures '.' in Lower(s[i..]) <==> '.' in s[i..]
    ensures Lower(Lower(s[i..])) == Lower(s[i..])
  {
    var t := Lower(s[i..]);
    if '.' in t {
      var k :| 0 <= k < |t| && t[k] == '.';
      assert s[i..][k] == '.';
    }
  }

  /** Lower-casing the whole name first never changes the decision. */
  lemma AllowedFileCaseInsensitive(filename: string)
    ensures AllowedFile(Lower(filename)) == AllowedFile(filename)
  {
    var g := Lower(filename);
    AllowedFileIff(filename);
    AllowedFileIff(g);
    if HasAllowedSuffix(g) {
      var i :| 0 <= i < |g| && g[i] == '.' && '.' !in g[i + 1..] && Lower(g[i + 1..]) in AllowedExtensions;
      LowerSuffix(filename, i + 1);
      assert filename[i] == '.';
    }
    if HasAllowedSuffix(filename) {
      var i :| 0 <= i < |filename| && filename[i] == '.' && '.' !in filename[i + 1..]
        && Lower(filename[i + 1..]) in AllowedExtensions;
      LowerSuffix(filename, i + 1);
      assert g[i] == '.';
    }
  }

  /** One submitted file: the name the browser sent and the name it would be
      stored under (`<8 hex digits>_<secure_filename(name)>`, produced by
      code outside this model). */
  datatype Upload = Upload(filename: string, storedAs: string)

  /** Number of uploads whose name passes `allowed_file`. */
  function CountAllowed(files: seq<Upload>): nat {
    if |files| == 0 then 0
    else CountAllowed(files[..|files| - 1]) + (if AllowedFile(files[|files| - 1].filename) then 1 else 0)
  }

  /** The photo list `generate_trip` builds: stored names of the accepted
      uploads, in submission order, one per upload that passes
      `allowed_file`. */
  function AcceptedPhotos(files: seq<Upload>): (r: seq<string>)
    ensures |r| == CountAllowed(files)
  {
    if |files| == 0 then []
    else
      var last := files[|files| - 1];
      AcceptedPhotos(files[..|files| - 1]) + (if AllowedFile(last.filename) then [last.storedAs] else [])
  }

  /** Uploads are judged one by one: a batch is accepted piecewise. */
  lemma {:induction false} AcceptedPhotosAppend(a: seq<Upload>, b: seq<Upload>)
    ensures AcceptedPhotos(a + b) == AcceptedPhotos(a) + AcceptedPhotos(b)
  {
    if |b| == 0 {
      assert a + b == a;
    } else {
      assert (a + b)[..|a + b| - 1] == a + b[..|b| - 1];
      AcceptedPhotosAppend(a, b[..|b| - 1]);
    }
  }

  /** An allowed upload's stored name sits between the photos of the uploads
      before it and those of the uploads after it. */
  lemma AcceptedPhotosAround(files: seq<Upload>, k: int)
    requires 0 <= k < |files| && AllowedFile(files[k].filename)
    ensures AcceptedPhotos(files)
      == AcceptedPhotos(files[..k]) + [files[k].storedAs] + AcceptedPhotos(files[k + 1..])
  {
    var before, here, after := files[..k], [files[k]], files[k + 1..];
    SplitAround(files, k);
    AcceptedPhotosAppend(before + here, after);
    AcceptedPhotosAppend(before, here);
    AcceptedPhotosSingle(files[k]);
  }

  /** Every upload that passes `allowed_file` contributes its stored name. */
  lemma AcceptedPhotosComplete(files: seq<Upload>, k: int)
    requires 0 <= k < |files| && AllowedFile(files[k].filename)
    ensures files[k].storedAs in AcceptedPhotos(files)
  {
    AcceptedPhotosAround(files, k);
    assert AcceptedPhotos(files)[|AcceptedPhotos(files[..k])|] == files[k].storedAs;
  }

  lemma SplitAround(files: seq<Upload>, k: int)
    requires 0 <= k < |files|
    ensures files == (files[..k] + [files[k]]) + files[k + 1..]
  {
  }

  lemma AcceptedPhotosSingle(f: Upload)
    ensures AcceptedPhotos([f]) == if AllowedFile(f.filename) then [f.storedAs] else []
  {
    assert [f][..0] == [];
  }

  /** When no file name passes `allowed_file`, the photo list is empty. */
  lemma {:induction false} AcceptedPhotosNoneAllowed(files: seq<Upload>)
    requires forall k :: 0 <= k < |files| ==> !AllowedFile(files[k].filename)
    ensures AcceptedPhotos(files) == []
  {
    if |files| > 0 {
      AcceptedPhotosNoneAllowed(files[..|files| - 1]);
    }
  }

  /** Every photo is the stored name of an upload that passed `allowed_file`. */
  lemma {:induction false} AcceptedPhotosSound(files: seq<Upload>)
    ensures forall p :: p in AcceptedPhotos(files) ==>
      exists k :: 0 <= k < |files| && files[k].storedAs == p && AllowedFile(files[k].filename)
  {
    if |files| > 0 {
      var init := files[..|files| - 1];
      AcceptedPhotosSound(init);
      forall p | p in AcceptedPhotos(files)
        ensures exists k :: 0 <= k < |files| && files[k].storedAs == p && AllowedFile(files[k].filename)
      {
        if p in AcceptedPhotos(init) {
          var k :| 0 <= k < |init| && init[k].storedAs == p && AllowedFile(init[k].filename);
          assert files[k] == init[k];
        } else {
          assert files[|files| - 1].storedAs == p;
        }
      }
    }
  }

  /** The `for file in request.files.getlist('photos')` loop. */
  method CollectPhotos(files: seq<Upload>) returns (photos: seq<string>)
    ensures photos == AcceptedPhotos(files)
  {
    photos := [];
    var i := 0;
    while i < |files|
      invariant 0 <= i <= |files|
      invariant photos == AcceptedPhotos(files[..i])
    {
      var file := files[i];
      assert files[..i + 1][..i] == files[..i];
      if file.filename != [] && AllowedFile(file.filename) {
        photos := photos + [file.storedAs];
      }
      i := i + 1;
    }
    assert files[..i] == files;
  }
}
