/**
 * The upload route of src/routes/upload.ts: each uploaded image is
 * canonicalised to PNG, hashed with SHA-256, and stored once under the key
 * `hex(digest) + ".png"`; the response lists one key per image, in order,
 * or reports "Invalid file" at the first image that cannot be used.
 */
module Upload {
  import opened Wrappers
  import opened Hex
  import opened Storage

  /** A SHA-256 digest is 32 bytes long. */
  const DigestLength: nat := 32

  type Digest = d: seq<Byte> | |d| == DigestLength witness seq(32, _ => 0)

  /**
   * The collaborators the route calls but whose code is not modelled:
   * `canonicalize` is `ImageJS.load` followed by `toBuffer({format: "png"})`
   * (None when decoding fails), `sha256` is `crypto.subtle.digest("SHA-256", ...)`.
   */
  datatype Codec = Codec(canonicalize: seq<Byte> -> Option<seq<Byte>>, sha256: seq<Byte> -> Digest)

  const PngSuffix: string := ".png"

  /** The storage key of an image with the given digest. */
  function ContentKey(digest: Digest): (key: string)
    ensures |key| == 2 * DigestLength + |PngSuffix|
    ensures key[2 * DigestLength..] == PngSuffix
    ensures forall i :: 0 <= i < 2 * DigestLength ==> IsHexDigit(key[i])
  {
    Buf2HexDigits(digest);
    Buf2Hex(digest) + PngSuffix
  }

  /** Content addressing: two digests share a key only if they are equal. */
  lemma ContentKeyInjective(d1: Digest, d2: Digest)
    requires ContentKey(d1) == ContentKey(d2)
    ensures d1 == d2
  {
    assert Buf2Hex(d1) == ContentKey(d1)[..2 * DigestLength];
    assert Buf2Hex(d2) == ContentKey(d2)[..2 * DigestLength];
    Buf2HexInjective(d1, d2);
  }

  /** The key an image is stored under: the content key of its canonical PNG bytes. */
  function KeyOf(codec: Codec, png: seq<Byte>): (key: string)
    ensures |key| == 2 * DigestLength + |PngSuffix|
    ensures key[2 * DigestLength..] == PngSuffix
    ensures forall i :: 0 <= i < 2 * DigestLength ==> IsHexDigit(key[i])
  {
    ContentKey(codec.sha256(png))
  }

  /** One value of `formData.getAll("images")`: a file, a plain string field, or null. */
  datatype FormEntry = File(bytes: seq<Byte>) | Text(value: string) | Null

  /**
   * The parts of the request the route reads: the Content-Type header (None
   * when absent), the `images` entries of the form data (read only when the
   * request is multipart) and the raw body (read only when it is not).
   */
  datatype Request = Request(contentType: Option<string>, images: seq<FormEntry>, body: seq<Byte>)

  /** One `{key}` element of the response. */
  datatype ImageRef = ImageRef(key: string)

  /** The JSON bodies the route sends: `{images: [...]}` or `{message}`. */
  datatype Body = Images(images: seq<ImageRef>) | Message(message: string)

  datatype Response = Response(status: int, body: Body)

  const InvalidFile: string := "Invalid file"

  const InvalidFileResponse: Response := Response(400, Message(InvalidFile))

  /** Does `pattern` occur in `text` starting at index `i`? */
  predicate OccursAt(text: string, pattern: string, i: int) {
    0 <= i && i + |pattern| <= |text| && text[i..i + |pattern|] == pattern
  }

  /** `text.match(/pattern/)` for a pattern of literal characters, scanning from the left. */
  function Contains(text: string, pattern: string): (r: bool)
    ensures r ==> |pattern| <= |text|
    decreases |text|
  {
    if |text| < |pattern| then false
    else text[..|pattern|] == pattern || Contains(text[1..], pattern)
  }

  /** The scan finds the pattern exactly when it occurs somewhere in the text. */
  lemma {:induction false} ContainsIff(text: string, pattern: string)
    ensures Contains(text, pattern) <==> exists i :: OccursAt(text, pattern, i)
    decreases |text|
  {
    if |text| >= |pattern| {
      if text[..|pattern|] == pattern {
        assert OccursAt(text, pattern, 0);
      } else {
        ContainsIff(text[1..], pattern);
        forall i | 1 <= i
          ensures OccursAt(text, pattern, i) <==> OccursAt(text[1..], pattern, i - 1)
        {
          if i + |pattern| <= |text| {
            var here, there := text[i..i + |pattern|], text[1..][i - 1..i - 1 + |pattern|];
            assert forall k :: 0 <= k < |pattern| ==> here[k] == text[i + k] == there[k];
            assert here == there;
          }
        }
        if Contains(text[1..], pattern) {
          var j :| OccursAt(text[1..], pattern, j);
          assert OccursAt(text, pattern, j + 1);
        }
      }
    } else {
      assert forall i :: !OccursAt(text, pattern, i);
    }
  }

  const MultipartPattern: string := "multipart/form-data"

  /** The branch condition: a Content-Type header is present and mentions multipart/form-data anywhere. */
  function IsMultipart(contentType: Option<string>): (r: bool)
    ensures r <==> contentType.Some? && exists i :: OccursAt(contentType.value, MultipartPattern, i)
  {
    if contentType.None? then false
    else
      ContainsIff(contentType.value, MultipartPattern);
      Contains(contentType.value, MultipartPattern)
  }

  /**
   * One image through canonicalise, hash, head and put: the key pushed and
   * the bucket afterwards, or None when the bytes do not decode (nothing is
   * written then).
   */
  function IngestBytes(codec: Codec, raw: seq<Byte>, store: Store): (r: Option<(string, Store)>)
    ensures r.Some? <==> codec.canonicalize(raw).Some?
    ensures r.Some? ==>
      var (key, after) := r.value;
      var png := codec.canonicalize(raw).value;
      && key == KeyOf(codec, png)
      && after.Keys == store.Keys + {key}
      && (forall k :: k in store ==> after[k] == store[k])
      && after[key] == (if key in store then store[key] else png)
  {
    match codec.canonicalize(raw)
    case None => None
    case Some(png) =>
      var key := KeyOf(codec, png);
      if key in store then Some((key, store)) else Some((key, store[key := png]))
  }

  /** A form entry the loop accepts: a file whose bytes decode. */
  function Accepted(codec: Codec, entry: FormEntry): (r: bool)
    ensures r ==> entry.File?
    ensures entry.File? ==> (r <==> codec.canonicalize(entry.bytes).Some?)
  {
    match entry
    case File(raw) => codec.canonicalize(raw).Some?
    case Text(_) => false
    case Null => false
  }

  /** The key an accepted entry is stored under. */
  function EntryKey(codec: Codec, entry: FormEntry): string
    requires Accepted(codec, entry)
  {
    KeyOf(codec, codec.canonicalize(entry.bytes).value)
  }

  /** One iteration of the multipart loop: strings and nulls are rejected before any decoding. */
  function IngestEntry(codec: Codec, entry: FormEntry, store: Store): (r: Option<(string, Store)>)
    ensures r.Some? <==> Accepted(codec, entry)
    ensures r.Some? ==> r.value.0 == EntryKey(codec, entry)
  {
    match entry
    case File(raw) => IngestBytes(codec, raw, store)
    case _ => None
  }

  /** What the multipart loop leaves behind: the results pushed and the bucket, or a rejection with the bucket as it was then. */
  datatype Outcome = Stored(results: seq<ImageRef>, store: Store) | Rejected(store: Store)

  /** One pass of the multipart loop body: a rejected outcome stays as it is; otherwise the entry is ingested or rejects the batch. */
  function Continue(codec: Codec, outcome: Outcome, entry: FormEntry): (r: Outcome)
    ensures outcome.Rejected? ==> r == outcome
    ensures r.Stored? <==> outcome.Stored? && Accepted(codec, entry)
    ensures r.Stored? ==> r.results == outcome.results + [ImageRef(EntryKey(codec, entry))]
  {
    match outcome
    case Rejected(_) => outcome
    case Stored(results, s) =>
      match IngestEntry(codec, entry, s)
      case None => Rejected(s)
      case Some((key, s')) => Stored(results + [ImageRef(key)], s')
  }

  /** The multipart loop over `entries`, in order, stopping at the first entry it cannot use. */
  function IngestBatch(codec: Codec, entries: seq<FormEntry>, store: Store): (r: Outcome)
    ensures r.Stored? ==> |r.results| == |entries|
    decreases |entries|
  {
    if entries == [] then Stored([], store)
    else Continue(codec, IngestBatch(codec, entries[..|entries| - 1], store), entries[|entries| - 1])
  }

  /** Fail-fast: once a prefix of the entries is rejected, the whole batch is rejected with the bucket as that prefix left it. */
  lemma {:induction false} RejectedPrefix(codec: Codec, entries: seq<FormEntry>, store: Store, n: nat)
    requires n <= |entries|
    requires IngestBatch(codec, entries[..n], store).Rejected?
    ensures IngestBatch(codec, entries, store) == IngestBatch(codec, entries[..n], store)
    decreases |entries| - n
  {
    if n < |entries| {
      assert entries[..n + 1][..n] == entries[..n];
      RejectedPrefix(codec, entries, store, n + 1);
    } else {
      assert entries[..n] == entries;
    }
  }

  /** The response `action` sends and the bucket it leaves. */
  function Handle(codec: Codec, request: Request, store: Store): (r: (Response, Store))
    ensures r.0.status == 200 || r.0 == InvalidFileResponse
    ensures r.0.status == 200 ==> r.0.body.Images?
    ensures r.0.status == 200 && IsMultipart(request.contentType) ==> |r.0.body.images| == |request.images|
    ensures r.0.status == 200 && !IsMultipart(request.contentType) ==> |r.0.body.images| == 1
    ensures r.0.status != 200 && !IsMultipart(request.contentType) ==> r.1 == store
  {
    if IsMultipart(request.contentType) then
      match IngestBatch(codec, request.images, store)
      case Rejected(s) => (InvalidFileResponse, s)
      case Stored(results, s) => (Response(200, Images(results)), s)
    else
      match IngestBytes(codec, request.body, store)
      case None => (InvalidFileResponse, store)
      case Some((key, s)) => (Response(200, Images([ImageRef(key)])), s)
  }

  /**
   * The body of the route's try block for one image: decode and re-encode,
   * hash, build the key, and write only when `head` finds nothing. Returns
   * the key to push, or None when decoding fails.
   */
  method IngestFile(bucket: Bucket, codec: Codec, raw: seq<Byte>) returns (pushed: Option<string>)
    modifies bucket
    ensures pushed.None? ==> bucket.objects == old(bucket.objects)
    ensures IngestBytes(codec, raw, old(bucket.objects))
      == if pushed.Some? then Some((pushed.value, bucket.objects)) else None
  {
    var image := codec.canonicalize(raw);
    if image.None? {
      return None;
    }
    var png := image.value;
    var digest := codec.sha256(png);
    var hash := Buf2Hex(digest);
    var key := hash + PngSuffix;
    var existing := bucket.Head(key);
    if existing.Some? && existing.value.key != "" {
      pushed := Some(existing.value.key);
    } else {
      bucket.Put(key, png);
      pushed := Some(key);
    }
  }

  /** `action`: the whole upload route. */
  method Action(bucket: Bucket, codec: Codec, request: Request) returns (response: Response)
    modifies bucket
    ensures (response, bucket.objects) == Handle(codec, request, old(bucket.objects))
  {
    ghost var before := bucket.objects;
    var results: seq<ImageRef> := [];
    if IsMultipart(request.contentType) {
      var images := request.images;
      for i := 0 to |images|
        invariant IngestBatch(codec, images[..i], before) == Stored(results, bucket.objects)
      {
        assert images[..i + 1][..i] == images[..i];
        ghost var next := Continue(codec, Stored(results, bucket.objects), images[i]);
        assert IngestBatch(codec, images[..i + 1], before) == next;
        var file := images[i];
        if !file.File? {
          RejectedPrefix(codec, images, before, i + 1);
          return InvalidFileResponse;
        }
        var pushed := IngestFile(bucket, codec, file.bytes);
        if pushed.None? {
          RejectedPrefix(codec, images, before, i + 1);
          return InvalidFileResponse;
        }
        results := results + [ImageRef(pushed.value)];
      }
      assert images[..|images|] == images;
    } else {
      var pushed := IngestFile(bucket, codec, request.body);
      if pushed.None? {
        return InvalidFileResponse;
      }
      results := results + [ImageRef(pushed.value)];
      assert results == [ImageRef(pushed.value)];
    }
    response := Response(200, Images(results));
  }
}
