# A Dafny model of the AR-upload app's core rules

The application lets a user upload a 3D model from the browser, share a link
to it, and open that link on a phone in an AR viewer. An admin page purges
the bucket. A small server endpoint converts a stored `.glb` into a `.gltf`.
Almost everything else is UI and calls to a hosted storage SDK. This project
models the few sequential rules underneath, as pure functions over strings
and small immutable state records:

- **Upload page** (`upload.dfy`, module `Upload`):
  - the extension allow-list;
  - the file-name sanitiser;
  - the storage key `<Date.now()>_<safeName>`;
  - the share URL `<origin>/ar?key=<encodeURIComponent(key)>`;
  - the two handlers, as step functions over the page state.
- **AR viewer page** (`ar_page.dfy`, module `ArPage`): reading `key` from the query string with `URLSearchParams`, the public-URL lookup, and the choice between the loading, fallback and viewer screens.
- **Admin page** (`admin.dfy`, module `Admin`):
  - the purge: confirm, then list at most 1000 objects, then remove the listed names;
  - the message each outcome shows, and its colour;
  - the purge's effect on a bucket modelled as a finite map from name to bytes.
- **Conversion endpoint** (`convert.dfy`, module `ConvertEndpoint`): validation, the output key `basename(key, extname(key)) + ".gltf"`, the storage calls, and the status and body of the one response.
- **Supporting modules**, modelling the JavaScript and Node behaviour the rules above rely on:
  - `js_strings.dfy` (`JsStrings`):
    - JavaScript strings as sequences of UTF-16 code units;
    - ASCII case mapping;
    - decimal rendering of a time value.
  - `unicode.dfy` (`Unicode`):
    - UTF-16 surrogate pairing;
    - UTF-8 encoding;
    - the WHATWG UTF-8 decoder, with replacement.
  - `uri.dfy` (`Uri`):
    - `encodeURIComponent`, following section 19.2.6.5 of ECMA-262;
    - the `application/x-www-form-urlencoded` parser that `URLSearchParams` uses, following section 5.1 of the WHATWG URL Standard.
  - `node_path.dfy` (`NodePath`): Node's `path.posix.extname` and `path.posix.basename`. Each is written once as a declarative definition and once as Node's right-to-left scan, and the two are proved equal.

Inputs replace everything the code obtains from outside:
- `Date.now()` is a parameter;
- `window.confirm` is a parameter;
- the object URL the browser creates is a parameter;
- each storage SDK answer (`upload`, `getPublicUrl`, `list`, `remove`, `download`) is a datatype the caller chooses;
- the converter's answer is also a datatype the caller chooses.

Each storage call the code makes is recorded in the result, so contracts can say which calls happen and with what arguments.

Two facts about the code that its names do not suggest:
- Despite its route name `/api/convert-usdz`, the endpoint writes a `.gltf` into the same bucket (server/src/convert-usdz.ts:42-67).
- The share URL is `<origin>/ar?key=…`, with no `#/` (react-ts-app/src/upload.tsx:78).

Behaviour the contracts make explicit and that a reader may not expect:
- Clicking upload with no file selected sets the error and nothing else. An earlier share URL and preview stay on the page.
- When the AR page's query string loses its `key`, the effect leaves `modelUrl` and `error` as they were. A previously shown model stays visible.
- With more than 1000 objects in the bucket, one purge removes only the listed ones. It still reports that everything was deleted (`Admin.PurgeRemovesOnlyListed` states both).
- Output keys drop the directory: `a/x.glb` and `b/x.glb` both write to `x.gltf`.
- A root-level `x.gltf` derives itself, so converting it overwrites the source (`upsert: true`).

## Model

| member | source | states |
|---|---|---|
| Upload.IsAllowedIgnoresCase | react-ts-app/src/upload.tsx:37-39 | a name is accepted iff it ends with one of `.glb .gltf .obj .fbx .stl` when the case of ASCII letters is ignored |
| Upload.IsAllowedCaseInsensitive | react-ts-app/src/upload.tsx:38-39 | two names that differ only in the case of ASCII letters get the same verdict |
| Upload.Sanitize | react-ts-app/src/upload.tsx:63 | the result has the input's length and only units of `[A-Za-z0-9_.-]`; each allowed unit stays in place and each other UTF-16 code unit (each surrogate half too) becomes exactly one `_` |
| Upload.SanitizeIdempotent | react-ts-app/src/upload.tsx:63 | sanitising twice is the same as sanitising once |
| Upload.SanitizeFixedPoints | react-ts-app/src/upload.tsx:63 | the sanitiser leaves a name unchanged iff every unit of it is already allowed |
| Upload.SplitUploadKey | react-ts-app/src/upload.tsx:64 | splitting a key at its first `_` gives back the timestamp (its decimal digits read as a number) and the sanitised name |
| Upload.UploadKeyInjective | react-ts-app/src/upload.tsx:64 | two keys are equal iff their timestamps and their names are equal |
| Upload.UploadKeyIsSafe | react-ts-app/src/upload.tsx:63-64 | every key built from a sanitised name uses only the sanitiser's alphabet |
| Upload.EncodeSafeName | react-ts-app/src/upload.tsx:78 | `encodeURIComponent` neither throws on nor changes any string over the sanitiser's alphabet |
| Upload.ShareUrlOfUploadKey | react-ts-app/src/upload.tsx:78 | for every uploaded key the share URL exists and is exactly `origin + "/ar?key=" + key` |
| Upload.FileChange | react-ts-app/src/upload.tsx:26-50 | a file is selected iff the first picked file passes the allow-list, and then its object URL is the preview; with no file or a rejected one the preview is null; the error is non-empty (the unsupported-format text) iff the first file is rejected; the share URL is always cleared |
| Upload.UploadClick | react-ts-app/src/upload.tsx:52-89 | with no selection: only the error changes and no store call is made; otherwise one `upload` into `models` with the built key and `upsert: false`, `isUploading` is true meanwhile, and afterwards it is false and the selection is null; the share URL is set to `origin/ar?key=<key>` iff the store reports success; on failure the share URL and the preview are null and the failure text is shown |
| JsStrings.DecimalString | react-ts-app/src/upload.tsx:64 | the rendering of a time value is non-empty, made of decimal digits, without a leading zero unless it is `0` |
| JsStrings.DecimalStringValue | react-ts-app/src/upload.tsx:64 | reading the rendered digits back gives the number |
| JsStrings.DecimalStringInjective | react-ts-app/src/upload.tsx:64 | different time values render differently |
| JsStrings.ToLowerCaseIgnoresCase | react-ts-app/src/upload.tsx:38 | two strings lowercase to the same string iff they differ only in the case of ASCII letters |
| Uri.EncodeUriComponent | react-ts-app/src/upload.tsx:78 | when it succeeds, the output has only unreserved characters and `%` |
| Uri.EncodeUriComponentThrows | react-ts-app/src/upload.tsx:78 | the encoding throws (a URIError) iff the string holds an unpaired surrogate |
| Uri.EncodeUriComponentIdentity | react-ts-app/src/upload.tsx:78 | the encoding returns its input unchanged iff every unit is unreserved (`A-Z a-z 0-9 - _ . ! ~ * ' ( )`) |
| Uri.QueryRoundTrip | react-ts-app/src/ar.tsx:29-30 | for a well-formed string `s` and an unreserved parameter name, `get(name)` on `?name=<encodeURIComponent(s)>` returns `s` |
| Uri.DecodeComponentOfEncoded | react-ts-app/src/ar.tsx:29 | decoding an `encodeURIComponent` output (percent-decoding, `+` to space, UTF-8 decoding) gives back the original string |
| Uri.PercentDecodeOfEncodeScalars | react-ts-app/src/ar.tsx:29 | percent-decoding the encoded form of some scalars gives their UTF-8 bytes |
| Unicode.ToScalarsDefined | react-ts-app/src/upload.tsx:78 | a UTF-16 string decodes into scalar values iff every surrogate in it is correctly paired |
| Unicode.Utf16RoundTrip | react-ts-app/src/upload.tsx:78 | decoding the UTF-16 encoding of scalar values gives them back |
| Unicode.FromScalarsOfToScalars | react-ts-app/src/upload.tsx:78 | re-encoding the scalars of a well-formed string gives the string back |
| Unicode.Utf8RoundTrip | react-ts-app/src/ar.tsx:29 | the UTF-8 decoder that `URLSearchParams` uses turns the UTF-8 encoding of scalar values back into them |
| ArPage.RunEffect | react-ts-app/src/ar.tsx:28-42 | `loading` is false afterwards on every path; the lookup happens iff the `key` parameter is present and non-empty, and with that key; without a lookup `modelUrl` and `error` are unchanged; a returned URL becomes `modelUrl`; a throw sets the load-failure text and leaves `modelUrl` alone |
| ArPage.Render | react-ts-app/src/ar.tsx:44-165 | the loading screen iff loading; the viewer iff not loading, no error and a non-empty `modelUrl`, whose `src` is that URL; otherwise the fallback, whose text is the error when there is one and the no-model text only when there is none |
| ArPage.ViewAfterMount | react-ts-app/src/ar.tsx:24-79 | on a fresh page: without a key the no-model fallback and no `modelUrl`; with a key and a returned URL the viewer on that URL; with a key and a throw the error text, never the default text, and no `modelUrl` |
| ArPage.ShareLinkRoundTrip | react-ts-app/src/ar.tsx:29-34 | for every uploaded key, the share URL built at react-ts-app/src/upload.tsx:78 is the origin, `/ar` and the search `?key=<key>`; `get('key')` on that search returns the key; the effect looks that key up |
| ArPage.KeyParamOfSafeKey | react-ts-app/src/ar.tsx:29-30 | for a key over the sanitiser's alphabet, `encodeURIComponent` returns it unchanged and `get('key')` on `?key=<key>` returns it |
| Admin.PurgeMessage | react-ts-app/src/Admin.tsx:29-53 | the success text appears iff the listing named at least one object and `remove` reported no error; a failed listing or a failed `remove` gives the error text; a listing that is null or empty gives the nothing-to-delete text; the text is always one of the three messages |
| Admin.DeleteAll | react-ts-app/src/Admin.tsx:13-57 | declined: no store call and no state change; confirmed: first `list('', {limit: 1000})`, `isDeleting` true and the message cleared while it runs; `remove` is called (second, once) iff the listing named objects, and with exactly those names; a failed listing shows the error text, an empty or null one the nothing-to-delete text, a failed `remove` the error text; success is reported iff `remove` succeeded; `isDeleting` is false at the end |
| Admin.RemoveNames | react-ts-app/src/Admin.tsx:41-43 | after `remove(names)` the bucket holds exactly the objects not named, with their bytes unchanged |
| Admin.PurgeRemovesOnlyListed | react-ts-app/src/Admin.tsx:25-50 | when `remove` succeeds, the success text is shown and exactly the listed objects are gone, every other one keeping its bytes; with more than 1000 objects stored and at most 1000 listed, the bucket is not empty afterwards although success is reported |
| Admin.OnlyFailureIsRed | react-ts-app/src/Admin.tsx:99 | of the messages a purge ends with, the one containing `エラー` (shown red) is exactly the failure message; the other two are green |
| NodePath.LastSegment | server/src/convert-usdz.ts:36 | the segment holds no `/`, and it is empty iff the path consists of slashes only |
| NodePath.ExtOf | server/src/convert-usdz.ts:36 | the extension is empty or a `.` followed by no other dot; it is a proper suffix of the last segment |
| NodePath.StemOf | server/src/convert-usdz.ts:36 | stem followed by extension is the last segment; the stem holds no `/` and is non-empty whenever the segment is |
| NodePath.Extname | server/src/convert-usdz.ts:36 | Node's scan for `extname` returns exactly the extension of the last segment |
| NodePath.Basename | server/src/convert-usdz.ts:36 | `basename(p, extname(p))` is the stem of the last segment; without a usable suffix it is the last segment |
| NodePath.BasenameStrippingSuffix | server/src/convert-usdz.ts:36 | when the last segment is longer than the suffix and ends with it, Node's scan returns the segment without the suffix |
| NodePath.SuffixScan | server/src/convert-usdz.ts:36 | when the last segment properly ends with the suffix, Node's loop stops at the start of that segment and marks the start of the suffix as the end of the result |
| NodePath.BasenameOfSegment | server/src/convert-usdz.ts:36 | Node's scan without a suffix returns the last segment, ignoring trailing slashes |
| NodePath.StemOfNamedFile | server/src/convert-usdz.ts:36 | for `name.t`, with no slash in it and no dot in `t`, the extension is `.t` and the stem is `name`, in any directory |
| ConvertEndpoint.GltfKey | server/src/convert-usdz.ts:53 | the output key holds no `/` (it lands at the bucket's root) and ends with `.gltf` |
| ConvertEndpoint.DeriveGltfKey | server/src/convert-usdz.ts:36-53 | the key computed with Node's `extname` and `basename` scans is `GltfKey(key)`: the stem of the last segment followed by `.gltf` |
| ConvertEndpoint.Handle | server/src/convert-usdz.ts:20-72 | status 400 with the missing-fields body, and no store call, iff `bucket` or `key` is absent or empty; otherwise `download(key)` from `bucket` first; a download error or missing data gives 500 "glb 다운로드 실패" and nothing else; at most two calls, and the second, if any, is the only upload; an upload is made iff the download and the conversion succeed, into the same bucket under `GltfKey(key)` with `upsert: true` and `model/gltf+json`; 200 iff everything succeeds, with body `{ok: true, gltfKey}`; an upload error gives 500 "gltf 업로드 실패"; any throw gives 500 "gltf 변환 중 오류"; every other status is 400 or 500 with an error body |
| ConvertEndpoint.ConvertAndStore | server/src/convert-usdz.ts:35-72 | after a download: no upload if the conversion throws; otherwise exactly one upload of the converted bytes under `GltfKey(key)` with `upsert: true` and `model/gltf+json`; 200 with `{ok: true, gltfKey}` iff the conversion and the upload succeed; an upload error gives 500 "gltf 업로드 실패"; a throw gives 500 "gltf 변환 중 오류"; every other status is 500 with an error body |
| ConvertEndpoint.GltfKeyOfNamedFile | server/src/convert-usdz.ts:36-53 | the output key drops the directory and the source extension: `dir/name.t` and `name.t` both give `name.gltf` |
| ConvertEndpoint.RootGltfKeyDerivesItself | server/src/convert-usdz.ts:53-60 | a root-level key `name.gltf` derives itself, so the upsert overwrites the source |

## Left out

- Rendering, styles, the QR code, `<model-viewer>` and the `useState` plumbing. Only the state fields the handlers read and write are modelled, and a render is reduced to which of the three screens is shown.
- The storage SDK (`upload`, `getPublicUrl`, `list`, `remove`, `download`) is foreign code. Each call is an input answer, plus a record of the call.
- `list` is assumed to return object names only. Folder placeholder entries are not modelled.
- The bucket's contents after a failed `remove` are not modelled.
- `gltf-pipeline`'s `processGltf` is a foreign library. It and the `/tmp` writes and reads (server/src/convert-usdz.ts:35-52) are one input: the converted bytes, or an exception.
- `Date.now()` is a parameter limited to 0 … 8.64e15, the time values of ECMA-262. A clock before 1970 would render a `-` sign, which is not modelled.
- `window.confirm` and `URL.createObjectURL` are parameters.
- Non-string JSON values for `bucket` or `key` (numbers, objects) are not modelled. A field is absent, or it is a string.
- The environment-variable check, the Express setup and `server/src/index.ts` are not modelled.
- Handlers are single sequential steps. Interleavings of concurrent clicks and effects are not modelled; neither are the React dependency array and re-render scheduling.
- Whether the share URL reaches the AR page in a `HashRouter` app is not modelled. Only the query-string round trip is.
- JsStrings.ToLowerCase: lowers ASCII letters only, while `String.prototype.toLowerCase` applies full Unicode case mapping. Upload.IsAllowed therefore relies on this ASCII-only lowercasing.
- NodePath.Basename: states the result only when the suffix is the path's own `extname`, or is empty or longer than the path. Node's results for other suffixes, including its quirks when the suffix matches only part of the segment, are computed but not stated.
- NodePath.BasenameStrippingSuffix: states its result only when the last segment properly ends with the suffix.
