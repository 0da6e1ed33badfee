/**
 * The remote bucket, as the synchronisation pass sees it through the storage
 * service's list, get and delete operations. `order` is the order in which
 * the service lists keys; `objects` maps each key to its content.
 */
module Storage {
  import opened Wrappers

  type Bytes = seq<bv8>

  datatype Bucket = Bucket(order: seq<string>, objects: map<string, Bytes>) {
    /** The listing order names exactly the stored keys. */
    ghost predicate Valid() {
      forall k :: k in order <==> k in objects
    }
  }

  /** The keys of `order` that start with `prefix`, in listing order. */
  function KeysWithPrefix(order: seq<string>, prefix: string): (keys: seq<string>)
    ensures forall k :: k in keys <==> k in order && prefix <= k
    ensures |keys| <= |order|
    ensures prefix == [] ==> keys == order
  {
    if order == [] then []
    else
      var rest := KeysWithPrefix(order[1..], prefix);
      if prefix <= order[0] then [order[0]] + rest else rest
  }

  /** Listing keeps the service's order: the listing of two runs of keys is the two listings, one after the other. */
  lemma {:induction false} KeysWithPrefixAppend(front: seq<string>, back: seq<string>, prefix: string)
    ensures KeysWithPrefix(front + back, prefix) == KeysWithPrefix(front, prefix) + KeysWithPrefix(back, prefix)
  {
    if front == [] {
      assert front + back == back;
    } else {
      assert (front + back)[0] == front[0];
      assert (front + back)[1..] == front[1..] + back;
      KeysWithPrefixAppend(front[1..], back, prefix);
    }
  }

  /** `list_objects(Bucket, Prefix)`: the stored keys under a prefix, in listing order (empty when nothing matches). */
  function ListObjects(b: Bucket, prefix: string): (keys: seq<string>)
    ensures forall k :: k in keys ==> k in b.order && prefix <= k
    ensures b.Valid() ==> forall k :: k in keys <==> k in b.objects && prefix <= k
    ensures (forall k :: k in b.order ==> !(prefix <= k)) ==> keys == []
  {
    var keys := KeysWithPrefix(b.order, prefix);
    assert keys != [] ==> keys[0] in keys;
    keys
  }

  /**
   * `download_fileobj` for one key: the content, or nothing when the call
   * raises (the key is absent, or the environment fails this key).
   */
  function GetObject(b: Bucket, faults: set<string>, key: string): (body: Option<Bytes>)
    ensures body.Some? <==> key in b.objects && key !in faults
    ensures body.Some? ==> body.value == b.objects[key]
  {
    if key in faults || key !in b.objects then None else Some(b.objects[key])
  }

  /** `order` without any occurrence of `key`. */
  function Without(order: seq<string>, key: string): (r: seq<string>)
    ensures forall k :: k in r <==> k in order && k != key
  {
    if order == [] then []
    else
      var rest := Without(order[1..], key);
      if order[0] == key then rest else [order[0]] + rest
  }

  /** `delete_object(Bucket, Key)`: removes the key; deleting an absent key changes nothing. */
  function DeleteObject(b: Bucket, key: string): (r: Bucket)
    ensures r.objects == b.objects - {key}
    ensures forall k :: k in r.order <==> k in b.order && k != key
    ensures b.Valid() ==> r.Valid()
  {
    Bucket(Without(b.order, key), b.objects - {key})
  }
}
