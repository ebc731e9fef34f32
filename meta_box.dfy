/**
 * `content_list_meta_update` (lines 35-64), the `save_post` handler that
 * stores the two check boxes of the meta box. The post's meta store is a
 * map from meta key to value. The host's answers (is the field present,
 * does the nonce verify, is the post an autosave or a revision) are
 * booleans, and `sanitize_text_field` is a function parameter.
 */
module MetaBox {
  import opened PhpValues

  /** What the handler returns: `false`, or the post id after saving. */
  datatype UpdateResult = NotSaved | Saved(postId: int)

  /** The meta key a submitted field is stored under: `'contentlist_' . $key`. */
  function MetaKey(k: string): (mk: string)
    ensures |mk| == |k| + 12 && mk[12..] == k
  {
    "contentlist_" + k
  }

  lemma MetaKeyInjective(k1: string, k2: string)
    requires MetaKey(k1) == MetaKey(k2)
    ensures k1 == k2
  {
    assert k1 == MetaKey(k1)[12..];
  }

  /** True when `mk` is the meta key of some field of `fields`. */
  ghost predicate Submitted(mk: string, fields: set<string>) {
    exists k :: k in fields && MetaKey(k) == mk
  }

  /** Lines 39-45: the submission is rejected before anything is written. */
  predicate Rejected(submission: Option<map<string, string>>, nonceOk: bool, isAutosave: bool, isRevision: bool) {
    submission.None? || submission.value == map[] || !nonceOk || isAutosave || isRevision
  }

  /** Every submitted field is deleted when its sanitised value is empty, and stored otherwise. */
  predicate FieldsStored(fields: map<string, string>, sanitize: string -> string, store': map<string, string>) {
    forall k :: k in fields ==>
      if Falsy(sanitize(fields[k])) then MetaKey(k) !in store'
      else MetaKey(k) in store' && store'[MetaKey(k)] == sanitize(fields[k])
  }

  /** Every key that no field of `fields` maps to is present and valued as before. */
  ghost predicate OthersKept(fields: set<string>, store: map<string, string>, store': map<string, string>) {
    forall mk :: !Submitted(mk, fields) ==>
      (mk in store' <==> mk in store) && (mk in store ==> store'[mk] == store[mk])
  }

  /**
   * Lines 35-64. A missing or empty submission, a nonce that does not verify,
   * an autosave or a revision leaves the store as it was and returns
   * `false`. Otherwise every submitted field is sanitised; an empty value
   * deletes its meta key, any other value is stored under it; every other
   * key keeps its value; and the post id is returned.
   */
  method MetaUpdate(postId: int, submission: Option<map<string, string>>, nonceOk: bool, isAutosave: bool,
                    isRevision: bool, sanitize: string -> string, store: map<string, string>)
    returns (result: UpdateResult, store': map<string, string>)
    ensures result.NotSaved? <==> Rejected(submission, nonceOk, isAutosave, isRevision)
    ensures result.NotSaved? ==> store' == store
    ensures result.Saved? ==> result.postId == postId
    ensures result.Saved? ==> FieldsStored(submission.value, sanitize, store')
    ensures result.Saved? ==> OthersKept(submission.value.Keys, store, store')
  {
    if submission.None? {
      return NotSaved, store;
    }
    var metaBox := submission.value;
    if metaBox == map[] || !nonceOk || isAutosave || isRevision {
      return NotSaved, store;
    }
    var sanitized := map k | k in metaBox :: sanitize(metaBox[k]);
    store' := store;
    var todo := metaBox.Keys;
    while todo != {}
      invariant todo <= metaBox.Keys
      invariant forall k :: k in metaBox && k !in todo ==>
        if Falsy(sanitized[k]) then MetaKey(k) !in store'
        else MetaKey(k) in store' && store'[MetaKey(k)] == sanitized[k]
      invariant OthersKept(metaBox.Keys - todo, store, store')
      decreases |todo|
    {
      var key :| key in todo;
      var metaKey := MetaKey(key);
      var value := sanitized[key];
      if Falsy(value) {
        store' := store' - {metaKey};
      } else {
        store' := store'[metaKey := value];
      }
      forall k | k in metaBox && k !in todo && k != key
        ensures MetaKey(k) != metaKey
      {
        if MetaKey(k) == metaKey {
          MetaKeyInjective(k, key);
        }
      }
      todo := todo - {key};
    }
    result := Saved(postId);
  }

  /**
   * What the outline reads at lines 120-121 after a save that carried the
   * field `k`: it is truthy exactly when the sanitised submitted value is.
   * An unchecked box submits "" through its hidden input (lines 73 and 81),
   * a checked one "1".
   */
  lemma SavedFieldReadsBack(fields: map<string, string>, k: string, sanitize: string -> string, store': map<string, string>)
    requires k in fields && FieldsStored(fields, sanitize, store')
    ensures Falsy(MetaValue(store', MetaKey(k))) <==> Falsy(sanitize(fields[k]))
  {
  }

  /** Saving the same submission a second time changes nothing. */
  lemma SaveTwice(fields: map<string, string>, sanitize: string -> string,
                  store: map<string, string>, once: map<string, string>, twice: map<string, string>)
    requires FieldsStored(fields, sanitize, once) && OthersKept(fields.Keys, store, once)
    requires FieldsStored(fields, sanitize, twice) && OthersKept(fields.Keys, once, twice)
    ensures twice == once
  {
    forall mk | mk in once || mk in twice
      ensures mk in once && mk in twice && twice[mk] == once[mk]
    {
      if Submitted(mk, fields.Keys) {
        var k :| k in fields && MetaKey(k) == mk;
      }
    }
  }
}
