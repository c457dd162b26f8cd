// ImageRepository: the stored table of images with IDENTITY ids (the inherited save), the
// inherited findById, and the JPQL query findImagesContainingObjects as a filter over the table.

module Repository {
  import opened Wrappers
  import opened Model

  /** Ids grow strictly along the table: each id is used once and the table is in insertion order. */
  predicate IdsIncreasing(images: seq<Image>) {
    forall i, j :: 0 <= i < j < |images| ==> images[i].id < images[j].id
  }

  /** The images table. `images` lists the rows in insertion order and `nextId` is the identity
      column's next value. */
  class ImageRepository {
    var images: seq<Image>
    var nextId: int

    ghost predicate Valid()
      reads this
    {
      1 <= nextId && IdsIncreasing(images) && forall k :: 0 <= k < |images| ==> 1 <= images[k].id < nextId
    }

    /** An empty table whose identity column starts at 1. */
    constructor ()
      ensures Valid() && images == [] && nextId == 1
    {
      images := [];
      nextId := 1;
    }

    /** save(new Image(url, labelText, objectsInImage)): the row gets the next identity value and is
        appended; no other row changes. */
    method Save(url: string, labelText: string, objectsInImage: seq<string>) returns (saved: Image)
      requires Valid()
      modifies this
      ensures Valid()
      ensures saved == Image(old(nextId), url, labelText, objectsInImage)
      ensures images == old(images) + [saved] && nextId == old(nextId) + 1
      ensures forall k :: 0 <= k < |old(images)| ==> old(images)[k].id != saved.id
    {
      saved := Image(nextId, url, labelText, objectsInImage);
      images := images + [saved];
      nextId := nextId + 1;
    }
  }

  // ---------------------------------------------------------------------------
  // findById
  // ---------------------------------------------------------------------------

  /** findById: the stored image with that id, or empty when there is none. */
  function FindById(images: seq<Image>, id: int): (found: Option<Image>)
    ensures found.None? <==> forall k :: 0 <= k < |images| ==> images[k].id != id
    ensures found.Some? ==> found.value in images && found.value.id == id
  {
    if images == [] then None
    else if images[0].id == id then Some(images[0])
    else
      assert forall k :: 1 <= k < |images| ==> images[k] == images[1..][k - 1];
      FindById(images[1..], id)
  }

  /** With ids used once, looking up a stored image's id gives back that very image. */
  lemma {:induction false} FindByIdStored(images: seq<Image>, k: nat)
    requires IdsIncreasing(images) && k < |images|
    ensures FindById(images, images[k].id) == Some(images[k])
  {
    if k > 0 {
      assert images[0].id < images[k].id;
      assert images[1..][k - 1] == images[k];
      FindByIdStored(images[1..], k - 1);
    }
  }

  // ---------------------------------------------------------------------------
  // findImagesContainingObjects:
  //   SELECT i FROM Image i JOIN i.objectsInImage obj WHERE obj IN :objects
  // ---------------------------------------------------------------------------

  /** The join row condition: some element of the image's object collection equals, exactly,
      some element of the parameter list. */
  predicate ContainsAnyOf(image: Image, objects: seq<string>) {
    exists k :: 0 <= k < |image.objectsInImage| && image.objectsInImage[k] in objects
  }

  /** The query result, each matching image once, in table order. An empty parameter list and
      an image without objects never match: the inner join has no row for them. */
  function ContainingObjects(images: seq<Image>, objects: seq<string>): (found: seq<Image>)
    ensures |found| <= |images|
    ensures forall x :: x in found <==> x in images && ContainsAnyOf(x, objects)
    ensures forall x :: x in found ==> x.objectsInImage != []
    ensures objects == [] ==> found == []
  {
    if images == [] then []
    else
      var rest := ContainingObjects(images[1..], objects);
      assert forall x :: x in images <==> x == images[0] || x in images[1..];
      if ContainsAnyOf(images[0], objects) then [images[0]] + rest else rest
  }

  /** Querying a table made of two parts gives the results of the parts, in order: a row's
      presence depends on that row alone. */
  lemma {:induction false} ContainingObjectsAppend(a: seq<Image>, b: seq<Image>, objects: seq<string>)
    ensures ContainingObjects(a + b, objects) == ContainingObjects(a, objects) + ContainingObjects(b, objects)
    decreases |a|
  {
    if a == [] {
      assert a + b == b;
    } else {
      assert (a + b)[0] == a[0] && (a + b)[1..] == a[1..] + b;
      ContainingObjectsAppend(a[1..], b, objects);
    }
  }

  /** Each matching row appears as often as it is stored and a non-matching one not at all, so
      a row that matches through several of its objects is still returned once. */
  lemma {:induction false} ContainingObjectsCount(images: seq<Image>, objects: seq<string>, x: Image)
    ensures multiset(ContainingObjects(images, objects))[x] ==
      if ContainsAnyOf(x, objects) then multiset(images)[x] else 0
  {
    if images != [] {
      assert images == [images[0]] + images[1..];
      assert multiset(images) == multiset{images[0]} + multiset(images[1..]);
      ContainingObjectsCount(images[1..], objects, x);
    }
  }

  /** After a save the query sees the old answer, followed by the new image when it matches. */
  lemma ContainingObjectsAfterSave(images: seq<Image>, saved: Image, objects: seq<string>)
    ensures ContainingObjects(images + [saved], objects) ==
      ContainingObjects(images, objects) + (if ContainsAnyOf(saved, objects) then [saved] else [])
  {
    ContainingObjectsAppend(images, [saved], objects);
    assert [saved][1..] == [];
  }

  /** After a save the new image is found by its id. */
  lemma FindByIdAfterSave(images: seq<Image>, saved: Image)
    requires IdsIncreasing(images + [saved])
    ensures FindById(images + [saved], saved.id) == Some(saved)
  {
    var all := images + [saved];
    assert all[|images|] == saved;
    FindByIdStored(all, |images|);
  }

  /** `r` keeps some of the elements of `s`, in the order of `s`. */
  ghost predicate IsSubsequence(r: seq<Image>, s: seq<Image>)
    decreases |s|
  {
    r == [] || (s != [] && ((r[0] == s[0] && IsSubsequence(r[1..], s[1..])) || IsSubsequence(r, s[1..])))
  }

  /** The result is a subsequence of the table: table order is kept. */
  lemma {:induction false} ContainingObjectsSubsequence(images: seq<Image>, objects: seq<string>)
    ensures IsSubsequence(ContainingObjects(images, objects), images)
  {
    if images != [] {
      ContainingObjectsSubsequence(images[1..], objects);
      var found := ContainingObjects(images, objects);
      if ContainsAnyOf(images[0], objects) {
        assert found[0] == images[0] && found[1..] == ContainingObjects(images[1..], objects);
      }
    }
  }

  /** On a table whose ids grow, so do the result's ids: no image twice, insertion order kept. */
  lemma {:induction false} ContainingObjectsIdsIncreasing(images: seq<Image>, objects: seq<string>)
    requires IdsIncreasing(images)
    ensures IdsIncreasing(ContainingObjects(images, objects))
  {
    if images != [] {
      var tail := images[1..];
      assert IdsIncreasing(tail) by {
        assert forall k :: 0 <= k < |tail| ==> tail[k] == images[k + 1];
      }
      ContainingObjectsIdsIncreasing(tail, objects);
      var rest := ContainingObjects(tail, objects);
      forall x | x in rest
        ensures images[0].id < x.id
      {
        var k :| 0 <= k < |tail| && tail[k] == x;
        assert images[k + 1] == x;
      }
    }
  }
}
