/** The caches of loaded images (`Image::fromUrl`, `Image::fromResourcePixmap`, src/messages/Image.cpp). */
module ImageCaching {
  import opened Wrappers

  /** A weak pointer to an image, by its number; an empty one points to nothing. */
  type WeakImage = Option<nat>

  /** The entries whose image is still there. */
  function Unexpired<Key>(entries: map<Key, WeakImage>, live: set<nat>): map<Key, WeakImage> {
    map key | key in entries && entries[key].Some? && entries[key].value in live :: entries[key]
  }

  lemma {:induction false} KeysOfImages<Key>(images: set<nat>, keyOf: map<nat, Key>)
    requires images <= keyOf.Keys
    ensures |set x | x in images :: keyOf[x]| <= |images|
    decreases |images|
  {
    if images != {} {
      var x :| x in images;
      var rest := images - {x};
      KeysOfImages(rest, keyOf);
      assert (set y | y in images :: keyOf[y]) == (set y | y in rest :: keyOf[y]) + {keyOf[x]};
    }
  }

  /** An entry points to an image of its key, and every image that is there has its entry. */
  ghost predicate Consistent<Key>(entries: map<Key, WeakImage>, live: set<nat>, keyOf: map<nat, Key>) {
    live <= keyOf.Keys
    && (forall key :: key in entries && entries[key].Some? ==>
          entries[key].value in keyOf && keyOf[entries[key].value] == key)
    && (forall x :: x in live ==> keyOf[x] in entries && entries[keyOf[x]] == Some(x))
  }

  /** Cleaning up leaves no more entries than there are images. */
  lemma {:induction false} UnexpiredFits<Key>(entries: map<Key, WeakImage>, live: set<nat>, keyOf: map<nat, Key>)
    requires Consistent(entries, live, keyOf)
    ensures |Unexpired(entries, live)| <= |live|
  {
    var keys := set x | x in live :: keyOf[x];
    KeysOfImages(live, keyOf);
    assert Unexpired(entries, live).Keys == keys;
    assert |Unexpired(entries, live)| == |Unexpired(entries, live).Keys|;
  }

  /** At any time, a key has at most one image. */
  lemma {:induction false} OneImagePerKey<Key>(entries: map<Key, WeakImage>, live: set<nat>, keyOf: map<nat, Key>,
      x: nat, y: nat)
    requires Consistent(entries, live, keyOf) && x in live && y in live && keyOf[x] == keyOf[y]
    ensures x == y
  {
    assert entries[keyOf[x]] == Some(x);
  }

  class ImageCache<Key(==)> {
    const room: nat
    var cache: map<Key, WeakImage>
    var nextCleanup: nat
    /** The images that someone still holds; they leave this set whenever their last holder lets go. */
    var live: set<nat>
    var created: nat
    /** The key that each image was made for, and how many images there were at the last cleanup. */
    ghost var keyOf: map<nat, Key>
    ghost var liveAtCleanup: nat

    ghost predicate Valid()
      reads this
    {
      room > 1 && Consistent(cache, live, keyOf) && (forall x :: x in keyOf ==> x < created)
      && |cache| <= nextCleanup <= liveAtCleanup + room
    }

    constructor (room: nat)
      requires room > 1
      ensures Valid() && this.room == room && live == {} && cache == map[] && liveAtCleanup == 0
      ensures |cache| < nextCleanup
    {
      this.room := room;
      cache, nextCleanup, live, created := map[], room, {}, 0;
      keyOf, liveAtCleanup := map[], 0;
    }

    /** The last holder of an image lets go. */
    method Release(image: nat)
      requires Valid()
      modifies `live
      ensures Valid() && live == old(live) - {image}
    {
      live := live - {image};
    }

    /** Forgets the expired entries if there are too many of all kinds. */
    method CleanUp()
      requires Consistent(cache, live, keyOf) && room > 1 && nextCleanup <= liveAtCleanup + room
      modifies `cache, `nextCleanup, `liveAtCleanup
      ensures Consistent(cache, live, keyOf)
      ensures (cache == old(cache) && |cache| < nextCleanup) || |cache| + room == nextCleanup
      ensures nextCleanup <= liveAtCleanup + room
      ensures liveAtCleanup == if |old(cache)| >= old(nextCleanup) then |live| else old(liveAtCleanup)
      ensures forall key :: key in cache ==> key in old(cache) && cache[key] == old(cache)[key]
    {
      if |cache| >= nextCleanup {
        UnexpiredFits(cache, live, keyOf);
        cache := Unexpired(cache, live);
        nextCleanup := |cache| + room;
        liveAtCleanup := |live|;
      }
    }

    /** A new image, with an entry for it. */
    method Enter(key: Key) returns (image: nat)
      requires room > 1 && Consistent(cache, live, keyOf) && (forall x :: x in keyOf ==> x < created)
      requires forall x :: x in live ==> keyOf[x] != key
      modifies `cache, `live, `created, `keyOf
      ensures Consistent(cache, live, keyOf) && (forall x :: x in keyOf ==> x < created)
      ensures image == old(created) && live == old(live) + {image} && keyOf == old(keyOf)[image := key]
      ensures cache == old(cache)[key := Some(image)]
    {
      image := created;
      created := created + 1;
      keyOf := keyOf[image := key];
      live := live + {image};
      cache := cache[key := Some(image)];
    }

    /** Looking an entry up makes one, which counts when the cache is cleaned up. */
    method FromUrl(url: Key) returns (image: nat)
      requires Valid()
      modifies this
      ensures Valid() && image in live && keyOf[image] == url
      ensures live == old(live) + {image}
      ensures image in old(live) <==> exists x :: x in old(live) && old(keyOf)[x] == url
      ensures forall x :: x in old(keyOf) ==> x in keyOf && keyOf[x] == old(keyOf)[x]
      ensures old(|cache| < nextCleanup) ==> |cache| < nextCleanup
      ensures |cache| <= room + liveAtCleanup && liveAtCleanup in {old(liveAtCleanup), |old(live)|}
    {
      if url !in cache {
        cache := cache[url := None];
      }
      if cache[url].Some? && cache[url].value in live {
        return cache[url].value;
      }
      CleanUp();
      image := Enter(url);
    }

    /** An expired entry is erased first, so that a new image may reach the limit. */
    method FromResourcePixmap(pixmap: Key) returns (image: nat)
      requires Valid()
      modifies this
      ensures Valid() && image in live && keyOf[image] == pixmap
      ensures live == old(live) + {image}
      ensures image in old(live) <==> exists x :: x in old(live) && old(keyOf)[x] == pixmap
      ensures forall x :: x in old(keyOf) ==> x in keyOf && keyOf[x] == old(keyOf)[x]
      ensures |cache| <= room + liveAtCleanup && liveAtCleanup in {old(liveAtCleanup), |old(live)|}
    {
      if pixmap in cache {
        if cache[pixmap].Some? && cache[pixmap].value in live {
          return cache[pixmap].value;
        }
        cache := cache - {pixmap};
      }
      CleanUp();
      image := Enter(pixmap);
    }
  }
}
