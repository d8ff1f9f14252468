# Content-addressed image upload, modelled in Dafny

This project models the upload route of a small image service. The service
receives images, re-encodes each one to PNG and hashes the PNG bytes with
SHA-256. It stores each image once in an object bucket, under the key
`hex(digest) + ".png"`, and answers with the list of keys.

The model has five modules:

- `Wrappers` (wrappers.dfy): the `Option` datatype.
- `Hex` (hex.dfy): `buf2hex`, the byte-to-hex encoder. `FormatByte` is
  the source's per-byte expression, `toString(16)` padded to two characters
  with `'0'`. `FormatByteIsTwoDigits` proves that it equals `ByteToHex`,
  the two lower-case digits of the byte. `Buf2Hex` joins those forms in
  order. The module also has a decoder, and lemmas proving that the
  encoding round-trips both ways and is injective.
- `Storage` (storage.dfy): the bucket binding (`env.FILES_BUCKET`). It is a
  class whose `objects` map the route's `head` and `put` calls read and
  update.
- `Upload` (upload.dfy): the route itself.
  - `ContentKey` builds the key. `IsMultipart` picks the branch.
  - `IngestBytes`, `IngestEntry`, `Continue`, `IngestBatch` and `Handle`
    are functions that specify the route.
  - The methods `IngestFile` and `Action` are the imperative route. `Action`
    pushes onto `results` in a `for` loop and returns early on the first
    bad item. It is proved to produce exactly the response and bucket that
    `Handle` describes.
- `UploadProperties` (upload_properties.dfy): lemmas about whole requests.
  They cover success exactly when every image is usable, one key per image
  in input order, fail-fast with earlier writes kept, write-once storage
  under content keys, and idempotence.

Three things the route calls are not modelled. Image decoding with PNG
re-encoding, and SHA-256, are the two fields of the `Codec` parameter.
`canonicalize` returns None when decoding fails. `sha256` returns a
32-byte `Digest`. The bucket is the `Storage.Bucket` object passed in.

Two behaviours of the route are worth stating plainly:

- When a batch fails part-way, objects written for earlier images stay in
  the bucket. There is no rollback.
- An error thrown by `head` or `put` is caught by the per-image `try` and
  becomes the same 400 "Invalid file" response as a decoding failure. The
  model's bucket never fails (see Left out).

## Model

| member | source | states |
|---|---|---|
| Hex.ToRadix16 | src/routes/upload.ts:89 | `x.toString(16)` has at least one digit, and exactly one digit iff x < 16 |
| Hex.ToRadix16Digits | src/routes/upload.ts:89 | every digit `toString(16)` writes is in 0-9a-f |
| Hex.PadStart | src/routes/upload.ts:89 | `padStart(2, "0")` gives length max(len, 2) and keeps the string as a suffix |
| Hex.PadStartFill | src/routes/upload.ts:89 | the characters `padStart` adds in front are all the fill character |
| Hex.FormatByte | src/routes/upload.ts:89 | every byte is formatted as exactly two characters |
| Hex.FormatByteIsTwoDigits | src/routes/upload.ts:89 | the formatted byte is its high and low nibble as lower-case hex digits, zero-padded |
| Hex.Buf2Hex | src/routes/upload.ts:87-91 | the output is exactly twice as long as the input |
| Hex.Buf2HexDigits | src/routes/upload.ts:87-91 | every character of the output is in 0-9a-f |
| Hex.Buf2HexAppend | src/routes/upload.ts:88-90 | the join of mapped bytes distributes over concatenation of buffers |
| Hex.Buf2HexAt | src/routes/upload.ts:88-90 | characters 2i and 2i+1 of the output are the hex digits of byte i |
| Hex.DigitValue | src/routes/upload.ts:89 | a character has a hex value iff it is a lower-case hex digit, and the digit of that value is the character |
| Hex.DecodePair | src/routes/upload.ts:89 | two characters decode to a byte iff both are lower-case hex digits, and that byte formats back to the same two characters |
| Hex.DecodePairOfByte | src/routes/upload.ts:89 | the two digits of a byte decode back to that byte |
| Hex.HexDecode | src/routes/upload.ts:87-91 | the inverse reading: a decoded buffer is half as long as the hex string |
| Hex.HexRoundTrip | src/routes/upload.ts:87-91 | decoding the output of buf2hex gives back the original bytes |
| Hex.HexDecodeSound | src/routes/upload.ts:87-91 | every string the decoder accepts is exactly buf2hex of what it returns |
| Hex.Buf2HexInjective | src/routes/upload.ts:87-91 | different buffers have different hex forms |
| Storage.Bucket.Head | src/routes/upload.ts:42 | `head(key)` reports metadata iff the key is stored, with that key and the stored size |
| Storage.Bucket.Put | src/routes/upload.ts:46-48 | `put(key, bytes)` maps the key to the bytes and leaves every other object unchanged |
| Upload.ContentKey | src/routes/upload.ts:37-40 | the key is 64 lower-case hex digits followed by ".png" |
| Upload.ContentKeyInjective | src/routes/upload.ts:37-40 | two digests share a key only if they are equal, so identical canonical content gives identical keys and different digests give different keys |
| Upload.KeyOf | src/routes/upload.ts:37-40 | the key of an image is 64 lower-case hex digits followed by ".png" |
| Upload.Contains | src/routes/upload.ts:24 | the scan reports a match only when the text is at least as long as the pattern |
| Upload.ContainsIff | src/routes/upload.ts:24 | the left-to-right scan used for the Content-Type test finds the pattern iff it occurs at some index |
| Upload.IsMultipart | src/routes/upload.ts:24 | the multipart branch is taken iff a Content-Type header is present and "multipart/form-data" occurs somewhere in it |
| Upload.Accepted | src/routes/upload.ts:28-34 | only a file entry can be accepted, and a file entry is accepted iff its bytes decode |
| Upload.IngestBytes | src/routes/upload.ts:33-51 | fails iff decoding fails; on success the key is the content key of the PNG bytes, the bucket gains exactly that key, no existing object changes, and the key holds the PNG bytes unless it was already present (dedup hit: no write) |
| Upload.IngestEntry | src/routes/upload.ts:28-30 | a form entry is processed iff it is a file that decodes; strings and nulls are rejected |
| Upload.Continue | src/routes/upload.ts:27-56 | one loop pass: a rejected batch stays rejected; otherwise the batch continues iff the entry is usable, and it then appends that entry's key |
| Upload.IngestBatch | src/routes/upload.ts:26-56 | a successful batch has one result per form entry |
| Upload.RejectedPrefix | src/routes/upload.ts:28-30 | fail-fast: once a prefix is rejected, later entries change neither the outcome nor the bucket |
| Upload.Handle | src/routes/upload.ts:15-85 | the response is 200 with an image list or 400 "Invalid file"; a multipart 200 has one key per form entry, a raw-body 200 exactly one key, and a rejected raw body leaves the bucket unchanged |
| Upload.IngestFile | src/routes/upload.ts:33-51 | the per-image method leaves the key and the bucket that IngestBytes specifies, and leaves the bucket unchanged on a decoding failure |
| Upload.Action | src/routes/upload.ts:15-85 | the route method returns exactly the response and leaves exactly the bucket that Handle specifies, in both branches and on every early return |
| UploadProperties.FirstRejected | src/routes/upload.ts:27-30 | the index of the first unusable entry: every entry before it is usable |
| UploadProperties.ExpectedResults | src/routes/upload.ts:44-50 | one `{key}` per entry, in order, each the entry's content key |
| UploadProperties.BatchSucceedsIff | src/routes/upload.ts:27-56 | a multipart batch succeeds iff every entry is a file that decodes |
| UploadProperties.BatchResults | src/routes/upload.ts:26-56 | on success the results are exactly the entries' content keys in input order, independent of the bucket |
| UploadProperties.BatchFailFast | src/routes/upload.ts:28-30 | a batch is rejected at its first unusable entry, with the bucket exactly as the entries before it left it (earlier writes kept, nothing later written) |
| UploadProperties.BatchStoreEffect | src/routes/upload.ts:42-50 | no existing object is overwritten; every new object is stored under its content key; on success every result key is stored and every new key is a result |
| UploadProperties.ContinueStoreEffect | src/routes/upload.ts:42-50 | the same bucket facts for a single loop pass |
| UploadProperties.BatchKeepsContentAddressed | src/routes/upload.ts:37-50 | a bucket whose keys are all content keys of their bytes stays so after a batch |
| UploadProperties.AllHits | src/routes/upload.ts:42-44 | when every image is already stored, the batch writes nothing and returns the existing keys |
| UploadProperties.ReplayStored | src/routes/upload.ts:26-56 | repeating a successful batch on the bucket it produced gives the same results and writes nothing |
| UploadProperties.BatchIdempotent | src/routes/upload.ts:26-56 | repeating any batch, even a rejected one, gives the same outcome and leaves the bucket unchanged |
| UploadProperties.HandleResponse | src/routes/upload.ts:15-85 | the response is 200 or 400 "Invalid file"; multipart gives 200 iff every image is usable, with one key per image in order; a raw body gives 200 iff it decodes, with exactly one key |
| UploadProperties.HandleNeverOverwrites | src/routes/upload.ts:42-50 | for any bucket, a request never overwrites or removes an existing object |
| UploadProperties.HandleKeepsContentAddressed | src/routes/upload.ts:37-50 | a bucket whose keys are all content keys of their bytes stays so after any request |
| UploadProperties.HandleIdempotent | src/routes/upload.ts:15-85 | sending the same request twice gives the same response, and the second send writes nothing |
| UploadProperties.SameContentSameKey | src/routes/upload.ts:35-40 | images that canonicalise to the same bytes get the same key, whatever the bucket holds |

## Left out

- Image decoding and PNG encoding (`ImageJS.load`, `toBuffer`) are an abstract `canonicalize` function. Only its success or failure and its output bytes are used.
- SHA-256 (`crypto.subtle.digest`) is an abstract function. Only its 32-byte output length is assumed. Hash collisions are not modelled, so content addressing holds up to the hash.
- Parsing the request: `request.formData()` and `request.arrayBuffer()` are taken as already done. The request carries the `images` form entries and the raw body. A failure to parse the form data is outside the route's `try` and is not modelled.
- Bucket failures: `head` and `put` always succeed in the model. In the code, an error they throw inside the `try` block becomes the 400 "Invalid file" response.
- The `sha256` integrity option passed to `put` is the bucket's own check and is not modelled.
- `console.error` logging, `async`/`await`, and the race between `head` and `put` across concurrent requests are not modelled. Each request runs alone against the bucket.
- The Content-Type test uses the regular expression `/multipart\/form-data/`. It is modelled as a literal, case-sensitive substring test, which is what that regular expression without flags matches.
- HTTP response construction (`json`, headers, serialisation) is reduced to a status and a body datatype.
- Image retrieval and resizing are served by another route, which is not part of this model.
