/**
 The admin page (react-ts-app/src/Admin.tsx): the bulk purge of the
 `models` bucket (confirm, list at most 1000 objects, remove the listed
 names) and the rule that colours its message. The confirmation dialog
 and the storage client's answers are inputs; the bucket itself is a
 finite map from object name to bytes. The messages are Dafny `string`s,
 as in the `Upload` module: fixed BMP literals, shown whole and searched
 only for `エラー`.
 */
module Admin {
  import opened Wrappers
  import opened JsStrings
  import opened Unicode

  /** The objects of a bucket, by name. */
  type Store = map<JsString, seq<Byte>>

  /** The `limit` passed to `list`. */
  const ListLimit := 1000

  /** What `list('', { limit: 1000 })` answers: an error, or `data` (possibly null) with the objects' names. */
  datatype ListReply = ListFailed | Listed(data: Option<seq<JsString>>)

  /** What `remove(fileNames)` answers. */
  datatype RemoveReply = Removed | RemoveFailed

  datatype StoreCall = List(prefix: JsString, limit: nat) | Remove(names: seq<JsString>)

  /** The state fields of `Admin`. */
  datatype AdminPage = AdminPage(isDeleting: bool, message: Option<string>)

  const NothingToDeleteMessage := "削除する3Dデータがありません。"
  const AllDeletedMessage := "すべての3Dデータが正常に削除されました。"
  const DeleteFailedMessage := "削除中にエラーが発生しました。コンソールログを確認してください。"

  /**
   The effect of one press of the button: the storage calls in order, the
   state while they are outstanding (if the purge started) and the state
   once the handler has finished.
   */
  datatype PurgeResult = PurgeResult(calls: seq<StoreCall>, pending: Option<AdminPage>, page: AdminPage)

  /** The listing named at least one object (`data` is neither null nor empty). */
  predicate HasFiles(listing: ListReply) {
    listing.Listed? && listing.data.Some? && |listing.data.value| > 0
  }

  /** The message a confirmed purge ends with; only a listing with files followed by a successful removal reports success. */
  function PurgeMessage(listing: ListReply, removal: RemoveReply): (m: string)
    ensures m == AllDeletedMessage <==> HasFiles(listing) && removal.Removed?
    ensures m in {NothingToDeleteMessage, AllDeletedMessage, DeleteFailedMessage}
    ensures listing.ListFailed? || (HasFiles(listing) && removal.RemoveFailed?) ==> m == DeleteFailedMessage
    ensures listing.Listed? && !HasFiles(listing) ==> m == NothingToDeleteMessage
  {
    assert AllDeletedMessage[0] != NothingToDeleteMessage[0] && AllDeletedMessage[0] != DeleteFailedMessage[0];
    if listing.ListFailed? then DeleteFailedMessage
    else if !HasFiles(listing) then NothingToDeleteMessage
    else if removal.RemoveFailed? then DeleteFailedMessage
    else AllDeletedMessage
  }

  /** `handleDeleteAll`, with the dialog answered `confirmed` and the store answering `listing` and `removal`. */
  function DeleteAll(page: AdminPage, confirmed: bool, listing: ListReply, removal: RemoveReply): (r: PurgeResult)
    ensures !confirmed ==> r.calls == [] && r.pending.None? && r.page == page
    ensures confirmed ==>
              && |r.calls| >= 1 && r.calls[0] == List([], ListLimit)
              && r.pending == Some(AdminPage(true, None))
              && !r.page.isDeleting && r.page.message.Some?
    ensures |r.calls| <= 2 && (forall i | 0 <= i < |r.calls| :: r.calls[i].Remove? <==> i == 1)
    ensures |r.calls| == 2 <==> confirmed && HasFiles(listing)
    ensures confirmed && HasFiles(listing) ==> r.calls == [List([], ListLimit), Remove(listing.data.value)]
    ensures confirmed && listing.ListFailed? ==> r.page.message == Some(DeleteFailedMessage)
    ensures confirmed && listing.Listed? && !HasFiles(listing) ==> r.page.message == Some(NothingToDeleteMessage)
    ensures confirmed && HasFiles(listing) && removal.RemoveFailed? ==> r.page.message == Some(DeleteFailedMessage)
    ensures confirmed ==> (r.page.message == Some(AllDeletedMessage) <==> HasFiles(listing) && removal.Removed?)
  {
    if !confirmed then PurgeResult([], None, page)
    else
      var pending := page.(isDeleting := true, message := None);
      var listCall := List([], ListLimit);
      var calls := if HasFiles(listing) then [listCall, Remove(listing.data.value)] else [listCall];
      var message := PurgeMessage(listing, removal);
      PurgeResult(calls, Some(pending), pending.(message := Some(message), isDeleting := false))
  }

  /** The bucket after a successful `remove(names)`: every listed object is gone and nothing else changes. */
  function RemoveNames(store: Store, names: seq<JsString>): (r: Store)
    ensures r.Keys == store.Keys - set n | n in names
    ensures forall k | k in r :: r[k] == store[k]
  {
    map k | k in store && k !in names :: store[k]
  }

  /** The bucket after the calls of a purge, when every call succeeds as answered. */
  function ApplyCalls(store: Store, calls: seq<StoreCall>): Store {
    if calls == [] then store
    else
      var first := match calls[0]
        case List(_, _) => store
        case Remove(names) => RemoveNames(store, names);
      ApplyCalls(first, calls[1..])
  }

  lemma CardinalityOfDifference<T>(a: set<T>, b: set<T>)
    ensures |a - b| >= |a| - |b|
  {
    assert a == (a - b) + (a * b);
    assert |a * b| <= |b| by {
      SubsetCardinality(a * b, b);
    }
  }

  lemma SubsetCardinality<T>(a: set<T>, b: set<T>)
    requires a <= b
    ensures |a| <= |b|
  {
    assert b == a + (b - a);
  }

  lemma {:induction false} SetOfSeqCardinality<T>(s: seq<T>)
    ensures |set x | x in s| <= |s|
  {
    if s != [] {
      SetOfSeqCardinality(s[1..]);
      assert (set x | x in s) == (set x | x in s[1..]) + {s[0]};
    }
  }

  /**
   A purge whose removal succeeds reports that everything was deleted and
   has removed exactly the listed objects: everything unlisted keeps its
   bytes. With more objects in the bucket than one listing returns, some
   object survives although success is reported.
   */
  lemma PurgeRemovesOnlyListed(store: Store, page: AdminPage, listing: ListReply)
    requires HasFiles(listing)
    ensures var names := listing.data.value;
      var after := ApplyCalls(store, DeleteAll(page, true, listing, Removed).calls);
      && after.Keys == store.Keys - set n | n in names
      && (forall k | k in store && k !in names :: k in after && after[k] == store[k])
      && (|names| <= ListLimit < |store| ==> |after| > 0)
      && DeleteAll(page, true, listing, Removed).page.message == Some(AllDeletedMessage)
  {
    var names := listing.data.value;
    var calls := DeleteAll(page, true, listing, Removed).calls;
    assert calls == [List([], ListLimit), Remove(names)];
    assert calls[1..] == [Remove(names)] && calls[1..][1..] == [];
    assert ApplyCalls(RemoveNames(store, names), calls[1..][1..]) == RemoveNames(store, names);
    assert ApplyCalls(store, calls[1..]) == RemoveNames(store, names);
    var after := ApplyCalls(store, calls);
    assert after == RemoveNames(store, names);
    if |names| <= ListLimit < |store| {
      var listed := set n | n in names;
      SetOfSeqCardinality(names);
      CardinalityOfDifference(store.Keys, listed);
      assert |after.Keys| > 0;
    }
  }

  // ---------------------------------------------------------------------
  // The message colour

  datatype Color = Red | Green

  /** `message.includes('エラー') ? 'red' : 'green'`. */
  function MessageColor(message: string): Color {
    if Includes(message, "エラー") then Red else Green
  }

  /** Of the three messages the purge can show, only the failure message is red. */
  lemma OnlyFailureIsRed(r: PurgeResult, page: AdminPage, confirmed: bool, listing: ListReply, removal: RemoveReply)
    requires r == DeleteAll(page, confirmed, listing, removal) && confirmed
    ensures MessageColor(r.page.message.value) == Red <==> r.page.message == Some(DeleteFailedMessage)
  {
    assert DeleteFailedMessage[4] == 'エ' && DeleteFailedMessage[5] == 'ラ' && DeleteFailedMessage[6] == 'ー';
    assert OccursAt(DeleteFailedMessage, "エラー", 4);
    NotIncludesWithoutFirst(NothingToDeleteMessage, "エラー");
    NotIncludesWithoutFirst(AllDeletedMessage, "エラー");
  }
}
