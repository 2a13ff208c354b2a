/**
 The AR viewer page (react-ts-app/src/ar.tsx): the effect that reads
 `key` from the query string and asks the storage client for its public
 URL, and the choice between the loading, fallback and viewer screens.
 The public-URL lookup is an input that either returns a URL or throws.
 The `error` field and the fallback texts are Dafny `string`s for the
 reason given in the `Upload` module: fixed BMP literals that are only
 shown or compared whole.
 */
module ArPage {
  import opened Wrappers
  import opened JsStrings
  import opened Unicode
  import opened Uri
  import opened Upload

  /** The state fields of `ArPage`. */
  datatype ViewerPage = ViewerPage(modelUrl: Option<JsString>, loading: bool, error: string)

  const InitialViewerPage := ViewerPage(None, true, "")

  const LoadFailedMessage := "모델을 불러올 수 없습니다."
  const NoModelMessage := "불러올 3D 모델이 없습니다. 유효한 링크인지 확인해 주세요."

  const KeyName := Lit("key")

  /** JavaScript truthiness of a `string | null`: present and non-empty. */
  predicate Truthy(s: Option<JsString>) {
    s.Some? && s.value != []
  }

  /** `new URLSearchParams(location.search).get('key')`. */
  function KeyParam(search: JsString): Option<JsString> {
    Get(SearchParams(search), KeyName)
  }

  /** What `getPublicUrl(key)` does: return `data.publicUrl`, or throw. */
  datatype LookupReply = PublicUrl(url: JsString) | LookupThrew

  /** The key passed to `getPublicUrl`, if the effect called it, and the state afterwards. */
  datatype EffectResult = EffectResult(lookedUp: Option<JsString>, page: ViewerPage)

  /** The `useEffect` body, run for query string `search`. */
  function RunEffect(page: ViewerPage, search: JsString, reply: LookupReply): (r: EffectResult)
    ensures !r.page.loading
    ensures r.lookedUp.Some? <==> Truthy(KeyParam(search))
    ensures r.lookedUp.Some? ==> r.lookedUp == KeyParam(search)
    ensures r.lookedUp.None? ==> r.page.modelUrl == page.modelUrl && r.page.error == page.error
    ensures r.lookedUp.Some? && reply.PublicUrl? ==>
              r.page.modelUrl == Some(reply.url) && r.page.error == page.error
    ensures r.lookedUp.Some? && reply.LookupThrew? ==>
              r.page.modelUrl == page.modelUrl && r.page.error == LoadFailedMessage
  {
    var key := KeyParam(search);
    var looked :=
      if !Truthy(key) then EffectResult(None, page)
      else
        match reply
        case PublicUrl(url) => EffectResult(key, page.(modelUrl := Some(url)))
        case LookupThrew => EffectResult(key, page.(error := LoadFailedMessage));
    looked.(page := looked.page.(loading := false))
  }

  /** The three screens the page can show. */
  datatype View = Loading | Fallback(message: string) | Viewer(src: JsString)

  /** The page's render: loading first, then the fallback on an error or a missing URL, else the viewer. */
  function Render(page: ViewerPage): (v: View)
    ensures v.Loading? <==> page.loading
    ensures v.Viewer? <==> !page.loading && page.error == "" && Truthy(page.modelUrl)
    ensures v.Viewer? ==> page.modelUrl == Some(v.src)
    ensures v.Fallback? && page.error != "" ==> v.message == page.error
    ensures v.Fallback? && page.error == "" ==> v.message == NoModelMessage
  {
    if page.loading then Loading
    else if page.error != "" || !Truthy(page.modelUrl) then
      Fallback(if page.error != "" then page.error else NoModelMessage)
    else Viewer(page.modelUrl.value)
  }

  /**
   What a freshly opened page shows once its effect has run: the default
   message without a key, the model when the lookup returns a URL, and the
   error text (never the default one) when the lookup throws.
   */
  lemma ViewAfterMount(search: JsString, reply: LookupReply)
    ensures var r := RunEffect(InitialViewerPage, search, reply);
      && (!Truthy(KeyParam(search)) ==>
            r.page.modelUrl.None? && Render(r.page) == Fallback(NoModelMessage))
      && (Truthy(KeyParam(search)) && reply.PublicUrl? && reply.url != [] ==>
            Render(r.page) == Viewer(reply.url))
      && (Truthy(KeyParam(search)) && reply.LookupThrew? ==>
            r.page.modelUrl.None? && Render(r.page) == Fallback(LoadFailedMessage))
  {
  }

  lemma SafeNameIsWellFormed(s: JsString)
    requires IsSafeName(s)
    ensures WellFormed(s)
  {
    forall i | 0 <= i < |s|
      ensures PairedAt(s, i)
    {
    }
  }

  lemma KeyNameIsUnreserved()
    ensures forall i | 0 <= i < |KeyName| :: IsUriUnreserved(KeyName[i])
  {
    forall i | 0 <= i < |KeyName|
      ensures IsUriUnreserved(KeyName[i])
    {
      assert "key"[i] in "key";
    }
  }

  /** The share URL of a key splits into the origin, the `/ar` path and the search `?key=<key>`. */
  lemma ShareUrlParts(origin: JsString, key: JsString)
    ensures origin + ShareRoute + key == origin + Lit("/ar") + ([QuestionMark] + KeyName + [EqualsSign] + key)
  {
    var path := Lit("/ar");
    var query := [QuestionMark] + KeyName + [EqualsSign];
    assert ShareRoute == path + query;
    assert origin + (path + query) + key == origin + path + (query + key);
  }

  /** The search of the share URL for a safe key reads that key back from `key`. */
  lemma KeyParamOfSafeKey(key: JsString)
    requires IsSafeName(key)
    ensures EncodeUriComponent(key) == Some(key)
    ensures KeyParam([QuestionMark] + KeyName + [EqualsSign] + key) == Some(key)
  {
    EncodeSafeName(key);
    SafeNameIsWellFormed(key);
    KeyNameIsUnreserved();
    QueryRoundTrip(KeyName, key);
  }

  /**
   The query string of a share URL hands the uploaded key back to the
   viewer: the URL is the origin, `/ar` and a search `?key=<encoded key>`,
   `get('key')` on that search returns the key, and the effect looks that
   key up.
   */
  lemma ShareLinkRoundTrip(origin: JsString, now: TimeValue, name: JsString, reply: LookupReply)
    ensures var key := UploadKey(now, Sanitize(name));
      var search := [QuestionMark] + KeyName + [EqualsSign] + key;
      && EncodeUriComponent(key) == Some(key)
      && ShareUrl(origin, key) == Some(origin + Lit("/ar") + search)
      && KeyParam(search) == Some(key)
      && RunEffect(InitialViewerPage, search, reply).lookedUp == Some(key)
  {
    var key := UploadKey(now, Sanitize(name));
    UploadKeyIsSafe(now, name);
    ShareUrlOfUploadKey(origin, now, name);
    ShareUrlParts(origin, key);
    KeyParamOfSafeKey(key);
  }
}
