/**
 * The object-store binding the upload route writes to (`env.FILES_BUCKET`).
 * Only the two calls the route makes are modelled: `head`, which reports
 * an object's metadata, and `put`, which stores bytes under a key.
 */
module Storage {
  import opened Wrappers
  import opened Hex

  /** The bucket's contents: object key to stored bytes. */
  type Store = map<string, seq<Byte>>

  /** The part of the metadata `head` returns that the route reads. */
  datatype ObjectMeta = ObjectMeta(key: string, size: nat)

  class Bucket {
    var objects: Store

    constructor (initial: Store)
      ensures objects == initial
    {
      objects := initial;
    }

    /** `head(key)`: the object's metadata when the key is present, None otherwise. */
    method Head(key: string) returns (meta: Option<ObjectMeta>)
      ensures meta.Some? <==> key in objects
      ensures meta.Some? ==> meta.value.key == key && meta.value.size == |objects[key]|
    {
      if key in objects {
        meta := Some(ObjectMeta(key, |objects[key]|));
      } else {
        meta := None;
      }
    }

    /** `put(key, bytes)`: stores the bytes under the key; every other object stays as it was. */
    method Put(key: string, bytes: seq<Byte>)
      modifies this
      ensures objects == old(objects)[key := bytes]
    {
      objects := objects[key := bytes];
    }
  }
}
