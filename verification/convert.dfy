/**
 The decision logic of `POST /api/convert-usdz`
 (server/src/convert-usdz.ts:20-72): validate `bucket` and `key`, download
 the object, derive the output key, upload the converted glTF into the same
 bucket, and answer with exactly one status and JSON body. The storage
 client and the converter are inputs; their calls are recorded in order.
 The error texts and the content type are Dafny `string`s, as in the
 `Upload` module: fixed BMP literals sent whole in the response.
 */
module ConvertEndpoint {
  import opened Wrappers
  import opened JsStrings
  import opened Unicode
  import opened NodePath

  /** The `bucket` and `key` string fields of the JSON body; absent fields (or an absent body) are `None`. */
  datatype ConvertRequest = ConvertRequest(bucket: Option<JsString>, key: Option<JsString>)

  /** `download(key)`: data, an error or missing data, or a thrown exception. */
  datatype DownloadReply = Downloaded(data: seq<Byte>) | DownloadFailed | DownloadThrew

  /**
   The temporary-file round trip and `processGltf`: the bytes of the
   serialised glTF as read back from disk, or an exception from the
   converter or the file system.
   */
  datatype ConversionReply = Converted(gltf: seq<Byte>) | ConversionThrew

  /** `upload(...)`: no error, an error, or a thrown exception. */
  datatype UploadReply = UploadOk | UploadError | UploadThrew

  datatype StorageCall =
    | Download(bucket: JsString, key: JsString)
    | Upload(bucket: JsString, key: JsString, body: seq<Byte>, upsert: bool, contentType: string)

  datatype ResponseBody = ErrorBody(error: string) | OkBody(gltfKey: JsString)

  datatype Response = Response(status: nat, body: ResponseBody)

  const GltfContentType := "model/gltf+json"
  const MissingFieldsMessage := "bucket, key가 필요합니다."
  const DownloadFailedMessage := "glb 다운로드 실패"
  const UploadFailedMessage := "gltf 업로드 실패"
  const ConversionErrorMessage := "gltf 변환 중 오류"

  /** `!bucket || !key`: a field is missing or the empty string. */
  predicate Invalid(req: ConvertRequest) {
    req.bucket.None? || req.bucket.value == [] || req.key.None? || req.key.value == []
  }

  const GltfExtension := Lit(".gltf")

  lemma GltfExtensionHasNoSlash()
    ensures Slash !in GltfExtension
  {
  }

  /** The output key: the stem of the last segment of `key`, then `.gltf`. */
  function GltfKey(key: JsString): (k: JsString)
    ensures Slash !in k
    ensures EndsWith(k, GltfExtension)
  {
    GltfExtensionHasNoSlash();
    var stem := StemOf(key);
    assert (stem + GltfExtension)[|stem|..] == GltfExtension;
    stem + GltfExtension
  }

  /** Lines 36 and 53: `${path.basename(key, path.extname(key))}.gltf`. */
  method DeriveGltfKey(key: JsString) returns (gltfKey: JsString)
    ensures gltfKey == GltfKey(key)
  {
    var ext := Extname(key);
    var baseName := Basename(key, ext);
    gltfKey := baseName + GltfExtension;
  }

  /**
   The handler, given the answers of the storage client and the converter.
   Returns the one response sent and the storage calls made.
   */
  method Handle(req: ConvertRequest, download: DownloadReply, conversion: ConversionReply, upload: UploadReply)
    returns (response: Response, calls: seq<StorageCall>)
    ensures Invalid(req) <==> response == Response(400, ErrorBody(MissingFieldsMessage))
    ensures Invalid(req) ==> calls == []
    ensures !Invalid(req) ==> |calls| >= 1 && calls[0] == Download(req.bucket.value, req.key.value)
    ensures !Invalid(req) && download.DownloadFailed? ==>
              response == Response(500, ErrorBody(DownloadFailedMessage)) && |calls| == 1
    ensures |calls| <= 2 && forall i | 0 <= i < |calls| :: calls[i].Upload? <==> i == 1
    ensures |calls| == 2 <==> !Invalid(req) && download.Downloaded? && conversion.Converted?
    ensures !Invalid(req) && download.Downloaded? && conversion.Converted? ==>
              calls == [Download(req.bucket.value, req.key.value),
                        Upload(req.bucket.value, GltfKey(req.key.value), conversion.gltf, true, GltfContentType)]
    ensures response.status == 200 <==>
              !Invalid(req) && download.Downloaded? && conversion.Converted? && upload.UploadOk?
    ensures response.status == 200 ==> response.body == OkBody(GltfKey(req.key.value))
    ensures response.status != 200 ==> response.body.ErrorBody? && response.status in {400, 500}
    ensures !Invalid(req) && download.Downloaded? && conversion.Converted? && upload.UploadError? ==>
              response == Response(500, ErrorBody(UploadFailedMessage))
    ensures !Invalid(req) && (download.DownloadThrew? || (download.Downloaded? && (conversion.ConversionThrew? || upload.UploadThrew?))) ==>
              response == Response(500, ErrorBody(ConversionErrorMessage))
  {
    if Invalid(req) {
      return Response(400, ErrorBody(MissingFieldsMessage)), [];
    }
    var bucket, key := req.bucket.value, req.key.value;
    calls := [Download(bucket, key)];
    match download {
      case DownloadThrew =>
        return Response(500, ErrorBody(ConversionErrorMessage)), calls;
      case DownloadFailed =>
        return Response(500, ErrorBody(DownloadFailedMessage)), calls;
      case Downloaded(_) =>
    }
    var uploads;
    response, uploads := ConvertAndStore(bucket, key, conversion, upload);
    calls := calls + uploads;
    assert calls[1..] == uploads;
  }

  /**
   The steps after a successful download: derive the output key, convert,
   upload the result. Returns the response and the upload call, if made.
   */
  method ConvertAndStore(bucket: JsString, key: JsString, conversion: ConversionReply, upload: UploadReply)
    returns (response: Response, uploads: seq<StorageCall>)
    ensures conversion.ConversionThrew? ==> uploads == []
    ensures conversion.Converted? ==>
              uploads == [Upload(bucket, GltfKey(key), conversion.gltf, true, GltfContentType)]
    ensures response.status == 200 <==> conversion.Converted? && upload.UploadOk?
    ensures response.status == 200 ==> response.body == OkBody(GltfKey(key))
    ensures response.status != 200 ==> response.body.ErrorBody? && response.status == 500
    ensures conversion.Converted? && upload.UploadError? ==>
              response == Response(500, ErrorBody(UploadFailedMessage))
    ensures conversion.ConversionThrew? || (conversion.Converted? && upload.UploadThrew?) ==>
              response == Response(500, ErrorBody(ConversionErrorMessage))
  {
    var gltfKey := DeriveGltfKey(key);
    match conversion {
      case ConversionThrew =>
        return Response(500, ErrorBody(ConversionErrorMessage)), [];
      case Converted(gltfBuffer) =>
        uploads := [Upload(bucket, gltfKey, gltfBuffer, true, GltfContentType)];
        match upload {
          case UploadError =>
            response := Response(500, ErrorBody(UploadFailedMessage));
          case UploadThrew =>
            response := Response(500, ErrorBody(ConversionErrorMessage));
          case UploadOk =>
            response := Response(200, OkBody(gltfKey));
        }
    }
  }

  /**
   The output key depends only on the file's stem: the directory and the
   source extension are dropped, so `a/x.glb` and `x.fbx` both become
   `x.gltf`.
   */
  lemma GltfKeyOfNamedFile(dir: JsString, name: JsString, t: JsString)
    requires name != [] && Slash !in name
    requires t != [] && Dot !in t && Slash !in t
    ensures GltfKey(dir + [Slash] + name + [Dot] + t) == name + GltfExtension
    ensures GltfKey(name + [Dot] + t) == name + GltfExtension
  {
    StemOfNamedFile(dir, name, t);
  }

  /**
   A root-level `.gltf` key derives itself, so a successful conversion
   overwrites its own source object (the upload uses `upsert`).
   */
  lemma RootGltfKeyDerivesItself(name: JsString)
    requires name != [] && Slash !in name
    ensures GltfKey(name + GltfExtension) == name + GltfExtension
  {
    var t := Lit("gltf");
    assert GltfExtension == [Dot] + t;
    assert name + GltfExtension == name + [Dot] + t;
    GltfKeyOfNamedFile([], name, t);
  }
}
