/** src/app/api/default-avatars/route.ts: the listing of the bundled avatar images. The
    directory listing is an input; `localeCompare` is an order given as a rank on names. */
module DefaultAvatarsApi {
  import opened Common
  import opened Sorting

  /** The image extensions the route accepts, in lower case. */
  const ImageExtensions: seq<string> := [".jpg", ".jpeg", ".png", ".gif", ".webp"]

  const DefaultAvatarFolder := "/uploads/default_avatar/"

  datatype DefaultAvatar = DefaultAvatar(id: string, filename: string, url: string)

  /** `file.toLowerCase().match(/\.(jpg|jpeg|png|gif|webp)$/)`. */
  predicate IsImageFile(file: string) {
    exists k :: 0 <= k < |ImageExtensions| && EndsWith(ToLower(file), ImageExtensions[k])
  }

  /** The first of `exts` that `l` ends with. */
  function EndingIn(l: string, exts: seq<string>): (r: Option<string>)
    ensures r.Some? ==> r.value in exts && EndsWith(l, r.value)
    ensures r.None? ==> forall k :: 0 <= k < |exts| ==> !EndsWith(l, exts[k])
  {
    if exts == [] then None
    else if EndsWith(l, exts[0]) then Some(exts[0])
    else
      var r := EndingIn(l, exts[1..]);
      assert forall k :: 1 <= k < |exts| ==> exts[k] == exts[1..][k - 1];
      r
  }

  /** `file.replace(/\.(jpg|jpeg|png|gif|webp)$/i, '')`: the name without the image
      extension it ends with in any case; no two of the extensions end alike, so at most one
      can match. */
  function AvatarId(file: string): string {
    match EndingIn(ToLower(file), ImageExtensions)
    case None => file
    case Some(e) => file[..|file| - |e|]
  }

  /** Lower-casing commutes with taking a suffix. */
  lemma {:induction false} ToLowerSuffix(s: string, k: nat)
    requires k <= |s|
    ensures ToLower(s[k..]) == ToLower(s)[k..]
  {
    assert forall i :: 0 <= i < |s| - k ==> ToLower(s[k..])[i] == LowerChar(s[k + i]) == ToLower(s)[k..][i];
  }

  /** The id of an image file is its name without the image extension it ends with, in
      whatever case that is written; any other name is its own id. */
  lemma {:induction false} AvatarIdStripsExtension(file: string)
    ensures var id := AvatarId(file);
      && StartsWith(file, id)
      && (IsImageFile(file) <==> ToLower(file[|id|..]) in ImageExtensions)
      && (!IsImageFile(file) ==> id == file)
  {
    var id := AvatarId(file);
    ToLowerSuffix(file, |id|);
    if EndingIn(ToLower(file), ImageExtensions).None? {
      assert file[|file|..] == [];
      assert ToLower([]) == [];
      assert [] !in ImageExtensions;
    }
  }

  function AvatarOf(file: string): (a: DefaultAvatar)
    ensures a.filename == file && a.url == DefaultAvatarFolder + file && a.id == AvatarId(file)
  {
    DefaultAvatar(AvatarId(file), file, DefaultAvatarFolder + file)
  }

  function AvatarsOf(files: seq<string>): (r: seq<DefaultAvatar>)
    ensures |r| == |files|
    ensures forall i :: 0 <= i < |files| ==> r[i] == AvatarOf(files[i])
  {
    if files == [] then [] else [AvatarOf(files[0])] + AvatarsOf(files[1..])
  }

  function ImageFile(): string -> bool {
    (f: string) => IsImageFile(f)
  }

  /** `(a, b) => a.filename.localeCompare(b.filename)` as a key. */
  function ByName(rank: string -> int): DefaultAvatar -> int {
    (a: DefaultAvatar) => rank(a.filename)
  }

  /** The avatars the GET lists: the image files, mapped, then sorted by name. */
  function ListAvatars(files: seq<string>, rank: string -> int): seq<DefaultAvatar> {
    SortBy(AvatarsOf(Filter(files, ImageFile())), ByName(rank))
  }

  /** GET /api/default-avatars; `None` is a directory that cannot be read. */
  function GetDefaultAvatars(listing: Option<seq<string>>, rank: string -> int): (r: Response<seq<DefaultAvatar>>)
    ensures listing.None? ==> r == Fail(500, "Failed to load default avatars")
    ensures listing.Some? ==> r == Ok(200, ListAvatars(listing.value, rank))
  {
    match listing
    case None => Fail(500, "Failed to load default avatars")
    case Some(files) => Ok(200, ListAvatars(files, rank))
  }

  /** The mapped image files: each is the avatar of an image file of the directory, and
      every image file of the directory has its avatar there. */
  lemma {:induction false} MappedImageFiles(files: seq<string>)
    ensures var mapped := AvatarsOf(Filter(files, ImageFile()));
      && (forall a :: a in mapped ==> a.filename in files && IsImageFile(a.filename) && a == AvatarOf(a.filename))
      && (forall f :: f in files && IsImageFile(f) ==> AvatarOf(f) in mapped)
  {
    var kept := Filter(files, ImageFile());
    var mapped := AvatarsOf(kept);
    forall a | a in mapped ensures a.filename in files && IsImageFile(a.filename) && a == AvatarOf(a.filename) {
      var i :| 0 <= i < |mapped| && mapped[i] == a;
      assert kept[i] in kept;
    }
    forall f | f in files && IsImageFile(f) ensures AvatarOf(f) in mapped {
      var i :| 0 <= i < |files| && files[i] == f;
      assert f in kept;
      var k :| 0 <= k < |kept| && kept[k] == f;
      assert mapped[k] == AvatarOf(f);
    }
  }

  /** The listing is sorted by name, no longer than the directory, holds only image files
      of the directory with their id and URL, and drops none of them. */
  lemma {:induction false} ListAvatarsSpec(files: seq<string>, rank: string -> int)
    ensures var r := ListAvatars(files, rank);
      && |r| <= |files|
      && (forall i, j :: 0 <= i < j < |r| ==> rank(r[i].filename) <= rank(r[j].filename))
      && (forall a :: a in r ==> a.filename in files && IsImageFile(a.filename) && a == AvatarOf(a.filename))
      && (forall f :: f in files && IsImageFile(f) ==> AvatarOf(f) in r)
  {
    var mapped := AvatarsOf(Filter(files, ImageFile()));
    var r := ListAvatars(files, rank);
    SortBySorted(mapped, ByName(rank));
    MappedImageFiles(files);
    assert forall a :: a in r <==> a in multiset(mapped);
  }
}
