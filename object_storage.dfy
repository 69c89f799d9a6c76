/**
 * The object-storage service (an S3 endpoint) as the pipeline sees it: a
 * map from bucket and key to the stored text. Whether a transfer succeeds
 * is decided by the network and the service, so it is a parameter.
 */
module ObjectStorage {
  import opened Wrappers

  datatype ObjectKey = ObjectKey(bucket: string, key: string)

  class ObjectStore {
    var objects: map<ObjectKey, string>

    constructor (initial: map<ObjectKey, string>)
      ensures objects == initial
    {
      objects := initial;
    }

    /** upload_file / put_object: on success the object under `at` is `body`;
        a failed upload changes nothing. */
    method Put(at: ObjectKey, body: string, succeeds: bool) returns (ok: bool)
      modifies this
      ensures ok == succeeds
      ensures objects == if ok then old(objects)[at := body] else old(objects)
    {
      ok := succeeds;
      if ok {
        objects := objects[at := body];
      }
    }

    /** get_object: the stored text, or None when there is no such key. */
    method Get(at: ObjectKey) returns (body: Option<string>)
      ensures body.Some? <==> at in objects
      ensures body.Some? ==> body.value == objects[at]
    {
      if at in objects {
        body := Some(objects[at]);
      } else {
        body := None;
      }
    }
  }
}
