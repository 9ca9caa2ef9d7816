/** The image table as the core sees it: each image is attached to a target,
    a pair (target type, target id) such as ("trip", 7) or ("notice", 3).
    File storage and URL building are not part of this model. */
module Images {
  import opened Wrappers

  datatype Image = Image(id: nat, targetType: string, targetId: nat, url: string)

  predicate Targets(im: Image, targetType: string, targetId: nat)
  {
    im.targetType == targetType && im.targetId == targetId
  }

  /** Image ids grow along the table, as an auto-increment key does. */
  predicate IncreasingImageIds(images: seq<Image>)
  {
    forall i, j :: 0 <= i < j < |images| ==> images[i].id < images[j].id
  }

  /** No two images attached to the same target. */
  predicate AtMostOnePerTarget(images: seq<Image>, targetType: string, targetId: nat)
  {
    forall i, j :: 0 <= i < j < |images| && Targets(images[i], targetType, targetId) ==>
      !Targets(images[j], targetType, targetId)
  }

  /** Position of the first image attached to the target, or |images| if none is. */
  function FirstIndexByTarget(images: seq<Image>, targetType: string, targetId: nat): (k: nat)
    ensures k <= |images|
    ensures k < |images| ==> Targets(images[k], targetType, targetId)
    ensures forall j :: 0 <= j < k ==> !Targets(images[j], targetType, targetId)
  {
    if images == [] then 0
    else if Targets(images[0], targetType, targetId) then 0
    else 1 + FirstIndexByTarget(images[1..], targetType, targetId)
  }

  /** `findByTargetTypeAndTargetId` / `getImageByTarget`: the first attached image, if any. */
  function FindByTarget(images: seq<Image>, targetType: string, targetId: nat): (r: Option<Image>)
    ensures r.None? <==> forall i :: 0 <= i < |images| ==> !Targets(images[i], targetType, targetId)
    ensures r.Some? ==> r.value in images && Targets(r.value, targetType, targetId)
  {
    var k := FirstIndexByTarget(images, targetType, targetId);
    if k < |images| then Some(images[k]) else None
  }

  /** `findAllByTargetTypeAndTargetId`: every attached image, in table order. */
  function AllByTarget(images: seq<Image>, targetType: string, targetId: nat): (r: seq<Image>)
    ensures forall im :: im in r <==> im in images && Targets(im, targetType, targetId)
    ensures r == [] <==> FindByTarget(images, targetType, targetId).None?
    ensures r != [] ==> r[0] == FindByTarget(images, targetType, targetId).value
  {
    if images == [] then []
    else if Targets(images[0], targetType, targetId) then [images[0]] + AllByTarget(images[1..], targetType, targetId)
    else AllByTarget(images[1..], targetType, targetId)
  }

  /** The table after `ImageRepository.delete` of the image with this id. */
  function Without(images: seq<Image>, imageId: nat): (r: seq<Image>)
    ensures forall im :: im in r <==> im in images && im.id != imageId
    ensures IncreasingImageIds(images) ==> IncreasingImageIds(r)
  {
    if images == [] then []
    else if images[0].id == imageId then Without(images[1..], imageId)
    else
      var rest := Without(images[1..], imageId);
      assert IncreasingImageIds(images) ==> forall im :: im in rest ==> images[0].id < im.id by {
        if IncreasingImageIds(images) {
          forall im | im in rest ensures images[0].id < im.id {
            var j :| 0 <= j < |images[1..]| && images[1..][j] == im;
            assert images[j + 1] == im;
          }
        }
      }
      [images[0]] + rest
  }

  /** `getImageByTarget(type, id).ifPresent(img -> deleteImage(img.getImageId()))`. */
  function RemoveFirstByTarget(images: seq<Image>, targetType: string, targetId: nat): (r: seq<Image>)
    ensures r == images <==> FindByTarget(images, targetType, targetId).None?
    ensures forall im :: im in r ==> im in images
  {
    match FindByTarget(images, targetType, targetId)
    case None => images
    case Some(im) => Without(images, im.id)
  }

  /** Deleting the target's image keeps every other image and, when the target
      had only one, leaves nothing attached to it. */
  lemma RemoveFirstByTargetEffect(images: seq<Image>, targetType: string, targetId: nat)
    requires IncreasingImageIds(images)
    ensures var r := RemoveFirstByTarget(images, targetType, targetId);
      forall im :: im in images && !Targets(im, targetType, targetId) ==> im in r
    ensures var r := RemoveFirstByTarget(images, targetType, targetId);
      forall im :: im in r ==> im in images
    ensures AtMostOnePerTarget(images, targetType, targetId) ==>
      forall im :: im in RemoveFirstByTarget(images, targetType, targetId) ==> !Targets(im, targetType, targetId)
  {
    var k := FirstIndexByTarget(images, targetType, targetId);
    if k < |images| {
      var first := images[k];
      forall im | im in images && im.id == first.id ensures im == first {
        var i :| 0 <= i < |images| && images[i] == im;
        assert i == k;
      }
      if AtMostOnePerTarget(images, targetType, targetId) {
        forall im | im in images && Targets(im, targetType, targetId) ensures im == first {
          var i :| 0 <= i < |images| && images[i] == im;
          assert !(k < i) && !(i < k);
        }
      }
    }
  }

  /** The image repository, shared by the trip and notice services. */
  class ImageStore {
    var images: seq<Image>
    var nextId: nat

    ghost predicate Valid()
      reads this
    {
      IncreasingImageIds(images) && forall i :: 0 <= i < |images| ==> images[i].id < nextId
    }

    constructor ()
      ensures Valid() && images == [] && nextId == 0
    {
      images, nextId := [], 0;
    }

    /** `uploadImage`: stores a new image attached to the target; `url` is the
        stored object's name, which file storage chooses. */
    method Upload(targetType: string, targetId: nat, url: string) returns (im: Image)
      requires Valid()
      modifies this
      ensures Valid()
      ensures im == Image(old(nextId), targetType, targetId, url)
      ensures images == old(images) + [im] && nextId == old(nextId) + 1
    {
      im := Image(nextId, targetType, targetId, url);
      images := images + [im];
      nextId := nextId + 1;
    }

    /** `deleteImage(imageId)`. */
    method DeleteImage(imageId: nat)
      requires Valid()
      modifies this
      ensures Valid()
      ensures images == Without(old(images), imageId) && nextId == old(nextId)
    {
      images := Without(images, imageId);
      forall i | 0 <= i < |images| ensures images[i].id < nextId {
        assert images[i] in old(images);
      }
    }
  }
}
