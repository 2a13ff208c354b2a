/**
 The upload page (react-ts-app/src/upload.tsx): the extension allow-list
 applied when a file is picked, the file-name sanitiser, the storage key
 `<Date.now()>_<safeName>`, the share URL, and the two handlers as step
 functions over the page's state. The storage client's answer and the
 object URL the browser makes for the preview are inputs.

 The fixed UI texts and the `error` field are Dafny `string`s rather than
 `JsString`s: they are only ever set to one of those literals, shown or
 compared whole, never cut into code units, and every character in them
 lies in the Basic Multilingual Plane, so each character is one UTF-16 code
 unit and both representations say the same.
 */
module Upload {
  import opened Wrappers
  import opened JsStrings
  import opened Unicode
  import opened Uri

  // ---------------------------------------------------------------------
  // Extension allow-list

  const AllowedExtensions: seq<JsString> :=
    [Lit(".glb"), Lit(".gltf"), Lit(".obj"), Lit(".fbx"), Lit(".stl")]

  /** `allowedExtensions.some((ext) => name.toLowerCase().endsWith(ext))`. */
  predicate IsAllowed(name: JsString) {
    exists ext | ext in AllowedExtensions :: EndsWith(ToLowerCase(name), ext)
  }

  /** Ends with `ext` when the case of ASCII letters is ignored. */
  predicate EndsWithIgnoringCase(name: JsString, ext: JsString) {
    |ext| <= |name| && SameIgnoringCase(name[|name| - |ext|..], ext)
  }

  lemma ExtensionsAreLowerCase()
    ensures forall ext | ext in AllowedExtensions :: ToLowerCase(ext) == ext
  {
    forall ext | ext in AllowedExtensions
      ensures ToLowerCase(ext) == ext
    {
      forall i | 0 <= i < |ext|
        ensures !IsAsciiUpper(ext[i])
      {
      }
    }
  }

  lemma EndsWithLowerCase(name: JsString, ext: JsString)
    requires ToLowerCase(ext) == ext
    ensures EndsWith(ToLowerCase(name), ext) <==> EndsWithIgnoringCase(name, ext)
  {
    if |ext| <= |name| {
      var tail := name[|name| - |ext|..];
      ToLowerCaseIgnoresCase(tail, ext);
      assert ToLowerCase(name)[|name| - |ext|..] == ToLowerCase(tail);
    }
  }

  /**
   A file is accepted exactly when its name ends with one of `.glb`,
   `.gltf`, `.obj`, `.fbx`, `.stl` in any mix of upper and lower case.
   */
  lemma IsAllowedIgnoresCase(name: JsString)
    ensures IsAllowed(name) <==> exists ext | ext in AllowedExtensions :: EndsWithIgnoringCase(name, ext)
  {
    ExtensionsAreLowerCase();
    forall ext | ext in AllowedExtensions
      ensures EndsWith(ToLowerCase(name), ext) <==> EndsWithIgnoringCase(name, ext)
    {
      EndsWithLowerCase(name, ext);
    }
  }

  /** Changing the case of ASCII letters in a name never changes the verdict. */
  lemma IsAllowedCaseInsensitive(a: JsString, b: JsString)
    requires SameIgnoringCase(a, b)
    ensures IsAllowed(a) == IsAllowed(b)
  {
    ToLowerCaseIgnoresCase(a, b);
  }

  // ---------------------------------------------------------------------
  // The sanitiser

  const Underscore: CodeUnit := '_' as int

  /** The code units the class `[a-zA-Z0-9_.-]` matches. */
  predicate IsSafeUnit(u: CodeUnit) {
    IsAsciiUpper(u) || IsAsciiLower(u) || IsDigit(u)
    || u == Underscore || u == '.' as int || u == '-' as int
  }

  predicate IsSafeName(s: JsString) {
    forall i | 0 <= i < |s| :: IsSafeUnit(s[i])
  }

  /**
   `name.replace(/[^a-zA-Z0-9_.-]/g, '_')`. Without the `u` flag the
   pattern matches single UTF-16 code units, so each unit outside the
   class, including each half of a surrogate pair, becomes one `_`.
   */
  function Sanitize(name: JsString): (r: JsString)
    ensures |r| == |name|
    ensures IsSafeName(r)
    ensures forall i | 0 <= i < |r| :: IsSafeUnit(name[i]) ==> r[i] == name[i]
    ensures forall i | 0 <= i < |r| :: !IsSafeUnit(name[i]) ==> r[i] == Underscore
  {
    if name == [] then []
    else [if IsSafeUnit(name[0]) then name[0] else Underscore] + Sanitize(name[1..])
  }

  /** Sanitising a sanitised name changes nothing. */
  lemma SanitizeIdempotent(name: JsString)
    ensures Sanitize(Sanitize(name)) == Sanitize(name)
  {
  }

  /** The names the sanitiser leaves alone are exactly the safe ones. */
  lemma SanitizeFixedPoints(name: JsString)
    ensures Sanitize(name) == name <==> IsSafeName(name)
  {
  }

  // ---------------------------------------------------------------------
  // The storage key and the share URL

  /** The largest time value ECMAScript allows (section 21.4.1.1 of ECMA-262): 8.64e15 ms. */
  const MaxTimeValue := 8_640_000_000_000_000

  /** A value of `Date.now()`; the clock is taken to read after 1970. */
  type TimeValue = t: nat | t <= MaxTimeValue

  /** `${Date.now()}_${safeName}`. */
  function UploadKey(now: TimeValue, safeName: JsString): JsString {
    DecimalString(now) + [Underscore] + safeName
  }

  /** Splitting a key at its first `_`: the decimal timestamp before it and the name after it. */
  function SplitKey(key: JsString): Option<(nat, JsString)> {
    match SplitFirst(key, Underscore)
    case None => None
    case Some((digits, name)) =>
      if |digits| > 0 && AllDigits(digits) then Some((DecimalValue(digits), name)) else None
  }

  /** Splitting at the first `_` recovers both parts of a key, since digits contain no `_`. */
  lemma SplitUploadKey(now: TimeValue, safeName: JsString)
    ensures SplitKey(UploadKey(now, safeName)) == Some((now as nat, safeName))
  {
    var digits := DecimalString(now);
    assert Underscore !in digits;
    SplitFirstAt(digits, Underscore, safeName);
    DecimalStringValue(now);
  }

  /** Distinct timestamp and name pairs give distinct keys. */
  lemma UploadKeyInjective(t1: TimeValue, n1: JsString, t2: TimeValue, n2: JsString)
    ensures UploadKey(t1, n1) == UploadKey(t2, n2) <==> t1 == t2 && n1 == n2
  {
    if UploadKey(t1, n1) == UploadKey(t2, n2) {
      SplitUploadKey(t1, n1);
      SplitUploadKey(t2, n2);
    }
  }

  /** A key built from a sanitised name uses only the sanitiser's alphabet. */
  lemma UploadKeyIsSafe(now: TimeValue, name: JsString)
    ensures IsSafeName(UploadKey(now, Sanitize(name)))
  {
  }

  /** `encodeURIComponent` leaves every safe name as it is. */
  lemma EncodeSafeName(s: JsString)
    requires IsSafeName(s)
    ensures EncodeUriComponent(s) == Some(s)
  {
    EncodeUriComponentIdentity(s);
  }

  const ShareRoute := Lit("/ar?key=")

  /** `${window.location.origin}/ar?key=${encodeURIComponent(fileName)}`; None if the encoding throws. */
  function ShareUrl(origin: JsString, key: JsString): Option<JsString> {
    match EncodeUriComponent(key)
    case None => None
    case Some(encoded) => Some(origin + ShareRoute + encoded)
  }

  /** For every uploaded key the share URL is the origin, `/ar?key=` and the key itself. */
  lemma ShareUrlOfUploadKey(origin: JsString, now: TimeValue, name: JsString)
    ensures ShareUrl(origin, UploadKey(now, Sanitize(name)))
         == Some(origin + ShareRoute + UploadKey(now, Sanitize(name)))
  {
    UploadKeyIsSafe(now, name);
    EncodeSafeName(UploadKey(now, Sanitize(name)));
  }

  // ---------------------------------------------------------------------
  // The page state and its handlers

  /** A picked file: its name and its bytes. */
  datatype File = File(name: JsString, contents: seq<Byte>)

  /** The state fields of `UploadPage`. */
  datatype UploadPage = UploadPage(
    selectedFile: Option<File>,
    previewUrl: Option<JsString>,
    shareUrl: Option<JsString>,
    isUploading: bool,
    error: string)

  const UnsupportedFormatMessage := "지원하지 않는 파일 형식입니다. glb/gltf/obj/fbx/stl 형식만 업로드할 수 있습니다."
  const NoFileMessage := "먼저 3D 모델 파일을 선택해 주세요."
  const UploadFailedMessage := "업로드 중 오류가 발생했습니다. 잠시 후 다시 시도해 주세요."

  /**
   `handleFileChange` for the picked `files`; `objectUrl` is what
   `URL.createObjectURL` returns for the first of them.
   */
  function FileChange(page: UploadPage, files: seq<File>, objectUrl: JsString): (r: UploadPage)
    ensures r.shareUrl == None && r.isUploading == page.isUploading
    ensures r.selectedFile.Some? <==> |files| > 0 && IsAllowed(files[0].name)
    ensures r.selectedFile.Some? ==> r.selectedFile == Some(files[0]) && r.previewUrl == Some(objectUrl)
    ensures r.selectedFile.None? ==> r.previewUrl == None
    ensures r.error != "" <==> |files| > 0 && !IsAllowed(files[0].name)
    ensures r.error != "" ==> r.error == UnsupportedFormatMessage
  {
    var file := if |files| > 0 then Some(files[0]) else None;
    var cleared := page.(selectedFile := file, error := "", shareUrl := None);
    match file
    case None => cleared.(previewUrl := None)
    case Some(f) =>
      if !IsAllowed(f.name) then
        cleared.(error := UnsupportedFormatMessage, selectedFile := None, previewUrl := None)
      else
        cleared.(previewUrl := Some(objectUrl))
  }

  const ModelsBucket := Lit("models")

  /** What the storage client answers to `upload`: success, or an error returned or thrown. */
  datatype StoreReply = Stored | StoreFailed

  /** A call `storage.from(bucket).upload(key, file, { upsert })`. */
  datatype UploadRequest = UploadRequest(bucket: JsString, key: JsString, file: File, upsert: bool)

  /**
   The effect of one click: the storage call made, if any, the state while
   it is outstanding, and the state once the handler has finished.
   */
  datatype ClickResult = ClickResult(request: Option<UploadRequest>, pending: Option<UploadPage>, page: UploadPage)

  /** The `catch` block of `handleUploadClick`. */
  function UploadFailed(page: UploadPage): UploadPage {
    page.(error := UploadFailedMessage, previewUrl := None, shareUrl := None)
  }

  /** `handleUploadClick` at time `now`, with the store answering `reply`, on a page served from `origin`. */
  function UploadClick(page: UploadPage, now: TimeValue, reply: StoreReply, origin: JsString): (r: ClickResult)
    ensures page.selectedFile.None? ==>
              r.request.None? && r.pending.None? && r.page == page.(error := NoFileMessage)
    ensures page.selectedFile.Some? ==>
              var key := UploadKey(now, Sanitize(page.selectedFile.value.name));
              && r.request == Some(UploadRequest(ModelsBucket, key, page.selectedFile.value, false))
              && r.pending.Some? && r.pending.value.isUploading && r.pending.value.shareUrl.None?
              && !r.page.isUploading && r.page.selectedFile.None?
              && (reply == Stored ==>
                    r.page.shareUrl == Some(origin + ShareRoute + key)
                    && r.page.error == "" && r.page.previewUrl == page.previewUrl)
              && (reply == StoreFailed ==>
                    r.page.shareUrl.None? && r.page.previewUrl.None? && r.page.error == UploadFailedMessage)
  {
    match page.selectedFile
    case None => ClickResult(None, None, page.(error := NoFileMessage))
    case Some(file) =>
      var pending := page.(error := "", isUploading := true, shareUrl := None);
      var key := UploadKey(now, Sanitize(file.name));
      var request := UploadRequest(ModelsBucket, key, file, false);
      var settled :=
        if reply == StoreFailed then UploadFailed(pending)
        else
          match ShareUrl(origin, key)
          case None => UploadFailed(pending)
          case Some(url) => pending.(shareUrl := Some(url));
      ShareUrlOfUploadKey(origin, now, file.name);
      ClickResult(Some(request), Some(pending), settled.(isUploading := false, selectedFile := None))
  }
}
