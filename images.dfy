/**
 * `scrape_images` (test.py): one local path per `<img>` tag, named by the
 * tag's position. Reading each tag's `src` attribute raises when the tag has
 * none; the address that `urljoin` resolves from it is used only for the
 * download, which is not modelled.
 */
module Images {
  import opened Wrappers
  import opened PyStr

  /** What the model keeps of an `<img>` tag: its `src` attribute, if any. */
  datatype ImgTag = ImgTag(src: Option<string>)

  /** `img['src']` raised `KeyError` on the tag at this position. */
  datatype ScrapeError = MissingSrc(position: nat)

  /** `f'images/img_{i}.jpg'`. */
  function ImagePath(i: nat): (path: string)
    ensures 16 <= |path| && path[..11] == "images/img_"
    ensures EndsWith(path, ".jpg")
  {
    "images/img_" + NatToString(i) + ".jpg"
  }

  /** Paths of different positions differ. */
  lemma ImagePathsDistinct(i: nat, j: nat)
    requires i != j
    ensures ImagePath(i) != ImagePath(j)
  {
    if ImagePath(i) == ImagePath(j) {
      var a, b := NatToString(i), NatToString(j);
      var p := ImagePath(i);
      assert |a| == |b|;
      assert a == p[11..|p| - 4];
      assert b == ImagePath(j)[11..|p| - 4];
      NatToStringInjective(i, j);
    }
  }

  /** The paths `scrape_images` returns for `n` tags. */
  function ImagePaths(n: nat): seq<string>
  {
    seq(n, i requires 0 <= i => ImagePath(i))
  }

  /** The loop of `scrape_images`: a path is appended per tag, in tag order;
      a tag without `src` stops it with that tag's position. */
  method ScrapeImages(tags: seq<ImgTag>) returns (r: Result<seq<string>, ScrapeError>)
    ensures r.Success? <==> forall k :: 0 <= k < |tags| ==> tags[k].src.Some?
    ensures r.Success? ==> |r.value| == |tags|
    ensures r.Success? ==> forall i :: 0 <= i < |tags| ==> r.value[i] == ImagePath(i)
    ensures r.Failure? ==>
      && r.error.position < |tags|
      && tags[r.error.position].src.None?
      && forall k :: 0 <= k < r.error.position ==> tags[k].src.Some?
  {
    var paths: seq<string> := [];
    var i := 0;
    while i < |tags|
      invariant 0 <= i <= |tags|
      invariant |paths| == i
      invariant forall k :: 0 <= k < i ==> paths[k] == ImagePath(k) && tags[k].src.Some?
    {
      if tags[i].src.None? {
        return Failure(MissingSrc(i));
      }
      paths := paths + [ImagePath(i)];
      i := i + 1;
    }
    return Success(paths);
  }
}
