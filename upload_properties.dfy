/**
 * What the upload route guarantees about a whole request: success exactly
 * when every image is usable, one key per image in input order, fail-fast
 * at the first unusable image with earlier writes kept, write-once
 * storage under content keys, and idempotence of repeated uploads.
 */
module UploadProperties {
  import opened Wrappers
  import opened Hex
  import opened Storage
  import opened Upload

  /** Index of the first entry the route would reject, or |entries| when there is none. */
  function FirstRejected(codec: Codec, entries: seq<FormEntry>): (j: nat)
    ensures j <= |entries|
    ensures j < |entries| ==> !Accepted(codec, entries[j])
    ensures forall i :: 0 <= i < j ==> Accepted(codec, entries[i])
  {
    if entries == [] then 0
    else if !Accepted(codec, entries[0]) then 0
    else 1 + FirstRejected(codec, entries[1..])
  }

  /** The results a fully accepted batch produces: each entry's content key, in order. */
  function ExpectedResults(codec: Codec, entries: seq<FormEntry>): (r: seq<ImageRef>)
    requires forall i :: 0 <= i < |entries| ==> Accepted(codec, entries[i])
    ensures |r| == |entries|
    ensures forall i :: 0 <= i < |entries| ==> r[i] == ImageRef(EntryKey(codec, entries[i]))
    decreases |entries|
  {
    if entries == [] then []
    else ExpectedResults(codec, entries[..|entries| - 1]) + [ImageRef(EntryKey(codec, entries[|entries| - 1]))]
  }

  /** A batch succeeds exactly when every entry is a file that decodes. */
  lemma {:induction false} BatchSucceedsIff(codec: Codec, entries: seq<FormEntry>, store: Store)
    ensures IngestBatch(codec, entries, store).Stored?
        <==> forall i :: 0 <= i < |entries| ==> Accepted(codec, entries[i])
    decreases |entries|
  {
    if entries != [] {
      var n := |entries|;
      var prefix := entries[..n - 1];
      BatchSucceedsIff(codec, prefix, store);
      assert forall i :: 0 <= i < n - 1 ==> prefix[i] == entries[i];
    }
  }

  /** On success the results are one `{key}` per entry, in input order, and depend on the entries alone. */
  lemma {:induction false} BatchResults(codec: Codec, entries: seq<FormEntry>, store: Store)
    requires IngestBatch(codec, entries, store).Stored?
    ensures forall i :: 0 <= i < |entries| ==> Accepted(codec, entries[i])
    ensures IngestBatch(codec, entries, store).results == ExpectedResults(codec, entries)
    decreases |entries|
  {
    BatchSucceedsIff(codec, entries, store);
    if entries != [] {
      BatchResults(codec, entries[..|entries| - 1], store);
    }
  }

  /**
   * Fail-fast: the batch is rejected at the first unusable entry, and the
   * bucket is exactly as the entries before it left it; nothing after it
   * is decoded or written.
   */
  lemma BatchFailFast(codec: Codec, entries: seq<FormEntry>, store: Store)
    requires FirstRejected(codec, entries) < |entries|
    ensures var j := FirstRejected(codec, entries);
      && IngestBatch(codec, entries[..j], store).Stored?
      && IngestBatch(codec, entries, store) == Rejected(IngestBatch(codec, entries[..j], store).store)
  {
    var j := FirstRejected(codec, entries);
    BatchSucceedsIff(codec, entries[..j], store);
    assert entries[..j + 1][..j] == entries[..j];
    RejectedPrefix(codec, entries, store, j + 1);
  }

  /** Every key the bucket holds is the content key of the bytes stored under it. */
  ghost predicate ContentAddressed(codec: Codec, store: Store) {
    forall k :: k in store ==> k == KeyOf(codec, store[k])
  }

  /**
   * The bucket after a batch: no existing object is overwritten, every new
   * object sits under its own content key, and on success the objects added
   * are exactly the result keys not present before.
   */
  lemma {:induction false} BatchStoreEffect(codec: Codec, entries: seq<FormEntry>, store: Store)
    ensures var r := IngestBatch(codec, entries, store);
      && (forall k :: k in store ==> k in r.store && r.store[k] == store[k])
      && (forall k :: k in r.store && k !in store ==> k == KeyOf(codec, r.store[k]))
      && (r.Stored? ==> forall i :: 0 <= i < |r.results| ==> r.results[i].key in r.store)
      && (r.Stored? ==> forall k :: k in r.store && k !in store ==> ImageRef(k) in r.results)
    decreases |entries|
  {
    if entries != [] {
      var prefix, last := entries[..|entries| - 1], entries[|entries| - 1];
      BatchStoreEffect(codec, prefix, store);
      ContinueStoreEffect(codec, IngestBatch(codec, prefix, store), last);
    }
  }

  /** The bucket effect of one loop pass, relative to the bucket before it. */
  lemma ContinueStoreEffect(codec: Codec, outcome: Outcome, entry: FormEntry)
    ensures var r := Continue(codec, outcome, entry);
      && (forall k :: k in outcome.store ==> k in r.store && r.store[k] == outcome.store[k])
      && (forall k :: k in r.store && k !in outcome.store ==> k == KeyOf(codec, r.store[k]))
      && (r.Stored? ==> r.results[|r.results| - 1].key in r.store)
      && (r.Stored? ==> forall k :: k in r.store && k !in outcome.store ==> k == r.results[|r.results| - 1].key)
  {
    if outcome.Stored? && Accepted(codec, entry) {
      var png := codec.canonicalize(entry.bytes).value;
      var key := KeyOf(codec, png);
      var after := IngestBytes(codec, entry.bytes, outcome.store).value.1;
      assert Continue(codec, outcome, entry) == Stored(outcome.results + [ImageRef(key)], after);
    }
  }

  /** Uploads keep the bucket content-addressed. */
  lemma BatchKeepsContentAddressed(codec: Codec, entries: seq<FormEntry>, store: Store)
    requires ContentAddressed(codec, store)
    ensures ContentAddressed(codec, IngestBatch(codec, entries, store).store)
  {
    BatchStoreEffect(codec, entries, store);
  }

  /** When every entry is usable and already stored, the batch writes nothing and returns the same keys. */
  lemma {:induction false} AllHits(codec: Codec, entries: seq<FormEntry>, store: Store)
    requires forall i :: 0 <= i < |entries| ==> Accepted(codec, entries[i]) && EntryKey(codec, entries[i]) in store
    ensures IngestBatch(codec, entries, store) == Stored(ExpectedResults(codec, entries), store)
    decreases |entries|
  {
    if entries != [] {
      AllHits(codec, entries[..|entries| - 1], store);
    }
  }

  /** Repeating a successful batch against the bucket it produced gives the same result and writes nothing. */
  lemma ReplayStored(codec: Codec, entries: seq<FormEntry>, store: Store)
    requires IngestBatch(codec, entries, store).Stored?
    ensures var r := IngestBatch(codec, entries, store);
      IngestBatch(codec, entries, r.store) == r
  {
    var r := IngestBatch(codec, entries, store);
    BatchResults(codec, entries, store);
    BatchStoreEffect(codec, entries, store);
    AllHits(codec, entries, r.store);
  }

  /**
   * Idempotence: sending the same batch again, against the bucket the first
   * send left, gives the same outcome and leaves the bucket unchanged,
   * whether the first send succeeded or was rejected part-way.
   */
  lemma BatchIdempotent(codec: Codec, entries: seq<FormEntry>, store: Store)
    ensures var r := IngestBatch(codec, entries, store);
      IngestBatch(codec, entries, r.store) == r
  {
    var r := IngestBatch(codec, entries, store);
    var j := FirstRejected(codec, entries);
    BatchSucceedsIff(codec, entries, store);
    if j == |entries| {
      ReplayStored(codec, entries, store);
    } else {
      var prefix := entries[..j];
      BatchFailFast(codec, entries, store);
      BatchFailFast(codec, entries, r.store);
      ReplayStored(codec, prefix, store);
    }
  }

  /**
   * The response of the route: 200 with one key per image in input order
   * when every image is usable (exactly one for a raw body), otherwise 400
   * with the message "Invalid file".
   */
  lemma HandleResponse(codec: Codec, request: Request, store: Store)
    ensures var (response, _) := Handle(codec, request, store);
      && (response.status == 200 || response == Response(400, Message("Invalid file")))
      && (IsMultipart(request.contentType) ==>
            (response.status == 200 <==> forall i :: 0 <= i < |request.images| ==> Accepted(codec, request.images[i]))
            && (response.status == 200 ==> response.body == Images(ExpectedResults(codec, request.images))))
      && (!IsMultipart(request.contentType) ==>
            (response.status == 200 <==> codec.canonicalize(request.body).Some?)
            && (response.status == 200 ==>
                  response.body == Images([ImageRef(KeyOf(codec, codec.canonicalize(request.body).value))])))
  {
    if IsMultipart(request.contentType) {
      BatchSucceedsIff(codec, request.images, store);
      if IngestBatch(codec, request.images, store).Stored? {
        BatchResults(codec, request.images, store);
      }
    }
  }

  /** The route never overwrites or removes an object, whatever the bucket holds. */
  lemma HandleNeverOverwrites(codec: Codec, request: Request, store: Store)
    ensures var (_, after) := Handle(codec, request, store);
      forall k :: k in store ==> k in after && after[k] == store[k]
  {
    if IsMultipart(request.contentType) {
      BatchStoreEffect(codec, request.images, store);
    }
  }

  /** A bucket whose keys are the content keys of their objects stays so after any request. */
  lemma HandleKeepsContentAddressed(codec: Codec, request: Request, store: Store)
    requires ContentAddressed(codec, store)
    ensures ContentAddressed(codec, Handle(codec, request, store).1)
  {
    if IsMultipart(request.contentType) {
      BatchStoreEffect(codec, request.images, store);
    }
  }

  /** Sending the same request twice gives the same response and the second send writes nothing. */
  lemma HandleIdempotent(codec: Codec, request: Request, store: Store)
    ensures var (response, after) := Handle(codec, request, store);
      Handle(codec, request, after) == (response, after)
  {
    if IsMultipart(request.contentType) {
      BatchIdempotent(codec, request.images, store);
    }
  }

  /** Two uploads whose images canonicalise to the same bytes get the same key, whatever the bucket held. */
  lemma SameContentSameKey(codec: Codec, a: seq<Byte>, b: seq<Byte>, s1: Store, s2: Store)
    requires codec.canonicalize(a).Some? && codec.canonicalize(a) == codec.canonicalize(b)
    ensures IngestBytes(codec, a, s1).Some? && IngestBytes(codec, b, s2).Some?
    ensures IngestBytes(codec, a, s1).value.0 == IngestBytes(codec, b, s2).value.0
  {
  }
}
