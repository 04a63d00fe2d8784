/**
 * The memo list's `shownMemos` computation: which memos the list shows for
 * the current location query. Each memo is judged by a callback that starts
 * from `true`, may take the saved filter's verdict, and is then only ever
 * lowered to `false` by the tag, date, type and text criteria that are set;
 * the memos it accepts are kept in their original order. With no criterion
 * set the list is shown as it is.
 */
module MemoList {
  import opened Wrappers
  import opened JsString
  import opened Memos
  import opened Tags
  import opened Selection

  const NotTagged := "NOT_TAGGED"
  const Linked := "LINKED"
  const Imaged := "IMAGED"
  const Connected := "CONNECTED"

  /**
   * The saved filter's say on a memo: its evaluator's verdict when the
   * querystring parses to an array, no constraint when it parses to anything
   * else or no saved query is resolved, and the parser's exception when it
   * does not parse.
   */
  function SavedVerdict(memo: Memo, saved: Option<SavedQuery>, env: Collaborators): (verdict: Result<bool, Exception>) {
    if saved.None? then Ok(true)
    else
      match env.parseJson(saved.value.querystring)
      case SyntaxError => Err(JsonSyntaxError)
      case ArrayValue(filters) => Ok(env.showWithFilters(memo, filters))
      case OtherValue => Ok(true)
  }

  /** The tag criterion: none, or the query is one of the memo's tags. */
  predicate TagOk(memo: Memo, tag: string, env: Collaborators) {
    tag == "" || tag in ContentTags(memo.content, env)
  }

  /** The date criterion: none unless `from < to`, then `createdAt` must not fall outside the range. */
  predicate DateOk(memo: Memo, duration: Option<Duration>, env: Collaborators) {
    !(duration.Some? && duration.value.from < duration.value.to &&
      (env.timeStampByDate(memo.createdAt) < duration.value.from ||
       env.timeStampByDate(memo.createdAt) > duration.value.to))
  }

  /** The content-type criterion, by selector; any other selector asks nothing. */
  predicate TypeOk(content: string, memoType: string, env: Collaborators) {
    if memoType == NotTagged then !Matches(env.tagReg, content) && !Matches(env.nopFirstTagReg, content)
    else if memoType == Linked then Matches(env.linkReg, content)
    else if memoType == Imaged then Matches(env.imageUrlReg, content)
    else if memoType == Connected then Matches(env.memoLinkReg, content)
    else true
  }

  /** The text criterion: none, or the text occurs in the content, case and all. */
  predicate TextOk(content: string, text: string) {
    text == "" || Contains(content, text)
  }

  /** The verdict on one memo: the saved filter's verdict and every set criterion, together. */
  function Decide(memo: Memo, q: Query, saved: Option<SavedQuery>, env: Collaborators): (verdict: Result<bool, Exception>) {
    match SavedVerdict(memo, saved, env)
    case Err(e) => Err(e)
    case Ok(savedOk) =>
      Ok(savedOk && TagOk(memo, q.tag, env) && DateOk(memo, q.duration, env) &&
         TypeOk(memo.content, q.memoType, env) && TextOk(memo.content, q.text))
  }

  /** `Decide` as a callback for the filter. */
  function Decider(q: Query, saved: Option<SavedQuery>, env: Collaborators): Memo -> Result<bool, Exception> {
    m => Decide(m, q, saved, env)
  }

  /** `showMemoFilter`: some criterion is set, or a saved query is resolved. */
  predicate ShowMemoFilter(q: Query, saved: Option<SavedQuery>) {
    q.tag != "" || (q.duration.Some? && q.duration.value.from < q.duration.value.to) ||
    q.memoType != "" || q.text != "" || saved.Some?
  }

  /** `shownMemos`: the filtered memos, the input itself when nothing is set, or the parser's exception. */
  function Shown(memos: seq<Memo>, q: Query, env: Collaborators): (shown: Result<seq<Memo>, Exception>) {
    var saved := env.queryById(q.filter);
    if ShowMemoFilter(q, saved) || saved.Some? then Keep(memos, Decider(q, saved, env)) else Ok(memos)
  }

  /**
   * The filter callback: the flag starts true, may be overwritten by the
   * saved filter, and each set criterion that fails lowers it to false.
   */
  method ShouldShow(memo: Memo, q: Query, saved: Option<SavedQuery>, env: Collaborators)
    returns (r: Result<bool, Exception>)
    ensures r == Decide(memo, q, saved, env)
  {
    var shouldShow := true;

    if saved.Some? {
      var filters := env.parseJson(saved.value.querystring);
      if filters.SyntaxError? {
        return Err(JsonSyntaxError);
      }
      if filters.ArrayValue? {
        shouldShow := env.showWithFilters(memo, filters.elements);
      }
    }
    ghost var savedOk := shouldShow;
    assert SavedVerdict(memo, saved, env) == Ok(savedOk);

    if q.tag != "" {
      var tagsSet := CollectTags(memo.content, env);
      if q.tag !in tagsSet {
        shouldShow := false;
      }
    }
    assert shouldShow == (savedOk && TagOk(memo, q.tag, env));
    if q.duration.Some? && q.duration.value.from < q.duration.value.to &&
       (env.timeStampByDate(memo.createdAt) < q.duration.value.from ||
        env.timeStampByDate(memo.createdAt) > q.duration.value.to) {
      shouldShow := false;
    }
    assert shouldShow == (savedOk && TagOk(memo, q.tag, env) && DateOk(memo, q.duration, env));
    ghost var beforeType := shouldShow;
    if q.memoType != "" {
      if q.memoType == NotTagged && (Matches(env.tagReg, memo.content) || Matches(env.nopFirstTagReg, memo.content)) {
        shouldShow := false;
      } else if q.memoType == Linked && !Matches(env.linkReg, memo.content) {
        shouldShow := false;
      } else if q.memoType == Imaged && !Matches(env.imageUrlReg, memo.content) {
        shouldShow := false;
      } else if q.memoType == Connected && !Matches(env.memoLinkReg, memo.content) {
        shouldShow := false;
      }
    }
    assert shouldShow == (beforeType && TypeOk(memo.content, q.memoType, env));
    if q.text != "" && !Contains(memo.content, q.text) {
      shouldShow := false;
    }

    r := Ok(shouldShow);
  }

  /** `shownMemos`, with the filter's walk over the memos written out. */
  method ShownMemos(memos: seq<Memo>, q: Query, env: Collaborators) returns (r: Result<seq<Memo>, Exception>)
    ensures r == Shown(memos, q, env)
  {
    var queryFilter := env.queryById(q.filter);
    var showMemoFilter := ShowMemoFilter(q, queryFilter);
    if !(showMemoFilter || queryFilter.Some?) {
      return Ok(memos);
    }
    var decide := Decider(q, queryFilter, env);
    var kept := [];
    for i := 0 to |memos|
      invariant Keep(memos[..i], decide) == Ok(kept)
    {
      assert memos[..i + 1][..i] == memos[..i];
      var verdict := ShouldShow(memos[i], q, queryFilter, env);
      if verdict.Err? {
        KeepPrefixThrows(memos, i + 1, decide);
        return Err(verdict.error);
      }
      if verdict.value {
        kept := kept + [memos[i]];
      }
    }
    assert memos[..|memos|] == memos;
    r := Ok(kept);
  }

  // ---------------------------------------------------------------------
  // The criteria one by one

  /**
   * A tag query accepts a memo exactly when it is a path prefix (the tag
   * itself or an ancestor cut at `/`) of the payload of some match of
   * either tag pattern.
   */
  lemma TagCriterion(memo: Memo, tag: string, env: Collaborators)
    requires tag != ""
    ensures TagOk(memo, tag, env) <==>
      (exists i :: 0 <= i < |env.tagReg.matchAll(memo.content)| &&
        IsPathPrefix(tag, Payload(env.tagReg, env.tagReg.matchAll(memo.content)[i]))) ||
      (exists i :: 0 <= i < |env.nopFirstTagReg.matchAll(memo.content)| &&
        IsPathPrefix(tag, Payload(env.nopFirstTagReg, env.nopFirstTagReg.matchAll(memo.content)[i])))
  {
    ContentTagsMembership(memo.content, env, tag);
  }

  /** A memo that satisfies a tag query satisfies every ancestor of it. */
  lemma TagQueryParent(memo: Memo, tag: string, parent: string, env: Collaborators)
    requires TagOk(memo, tag, env) && IsPathPrefix(parent, tag)
    ensures TagOk(memo, parent, env)
  {
    if parent == "" {
      return;
    }
    var c := memo.content;
    ContentTagsMembership(c, env, tag);
    ContentTagsMembership(c, env, parent);
    if exists i :: 0 <= i < |env.tagReg.matchAll(c)| && IsPathPrefix(tag, Payload(env.tagReg, env.tagReg.matchAll(c)[i])) {
      var i :| 0 <= i < |env.tagReg.matchAll(c)| && IsPathPrefix(tag, Payload(env.tagReg, env.tagReg.matchAll(c)[i]));
      PathPrefixTransitive(parent, tag, Payload(env.tagReg, env.tagReg.matchAll(c)[i]));
    } else {
      var i :| 0 <= i < |env.nopFirstTagReg.matchAll(c)| &&
        IsPathPrefix(tag, Payload(env.nopFirstTagReg, env.nopFirstTagReg.matchAll(c)[i]));
      PathPrefixTransitive(parent, tag, Payload(env.nopFirstTagReg, env.nopFirstTagReg.matchAll(c)[i]));
    }
  }

  /**
   * The date criterion applies only to a range with `from < to`, and then
   * keeps a memo exactly when its creation timestamp lies in the range,
   * both ends included.
   */
  lemma DateCriterion(memo: Memo, from: int, to: int, env: Collaborators)
    ensures from < to ==>
      (DateOk(memo, Some(Duration(from, to)), env) <==> from <= env.timeStampByDate(memo.createdAt) <= to)
    ensures from >= to ==> DateOk(memo, Some(Duration(from, to)), env)
    ensures DateOk(memo, None, env)
  {
  }

  /** `NOT_TAGGED` keeps a memo exactly when its tag set is empty. */
  lemma NotTaggedMeansNoTags(memo: Memo, env: Collaborators)
    ensures TypeOk(memo.content, NotTagged, env) <==> ContentTags(memo.content, env) == {}
  {
    ContentTagsEmpty(memo.content, env);
  }

  /** The type selectors, and that any other value asks nothing. */
  lemma TypeCriterion(content: string, memoType: string, env: Collaborators)
    ensures memoType == NotTagged ==>
      (TypeOk(content, memoType, env) <==> !Matches(env.tagReg, content) && !Matches(env.nopFirstTagReg, content))
    ensures memoType == Linked ==> (TypeOk(content, memoType, env) <==> Matches(env.linkReg, content))
    ensures memoType == Imaged ==> (TypeOk(content, memoType, env) <==> Matches(env.imageUrlReg, content))
    ensures memoType == Connected ==> (TypeOk(content, memoType, env) <==> Matches(env.memoLinkReg, content))
    ensures memoType !in {NotTagged, Linked, Imaged, Connected} ==> TypeOk(content, memoType, env)
  {
  }

  /** A text query keeps a memo exactly when the text occurs literally in its content. */
  lemma TextCriterion(content: string, text: string)
    ensures text != "" ==> (TextOk(content, text) <==> exists i :: OccursAt(content, text, i))
    ensures TextOk(content, "")
  {
  }

  /** With an array querystring the saved filter's verdict is ANDed with the other criteria; any other value adds nothing. */
  lemma SavedFilterCriterion(memo: Memo, q: Query, saved: SavedQuery, env: Collaborators)
    ensures env.parseJson(saved.querystring).ArrayValue? ==>
      (Decide(memo, q, Some(saved), env) == Ok(true) <==>
        env.showWithFilters(memo, env.parseJson(saved.querystring).elements) && Decide(memo, q, None, env) == Ok(true))
    ensures env.parseJson(saved.querystring).OtherValue? ==>
      Decide(memo, q, Some(saved), env) == Decide(memo, q, None, env)
    ensures env.parseJson(saved.querystring).SyntaxError? ==>
      Decide(memo, q, Some(saved), env) == Err(JsonSyntaxError)
  {
  }

  /** A memo is accepted exactly when every set criterion accepts it. */
  lemma DecideAccepts(memo: Memo, q: Query, saved: Option<SavedQuery>, env: Collaborators)
    ensures Decide(memo, q, saved, env) == Ok(true) <==>
      SavedVerdict(memo, saved, env) == Ok(true) &&
      (q.tag != "" ==> q.tag in ContentTags(memo.content, env)) &&
      (q.duration.Some? && q.duration.value.from < q.duration.value.to ==>
        q.duration.value.from <= env.timeStampByDate(memo.createdAt) <= q.duration.value.to) &&
      TypeOk(memo.content, q.memoType, env) &&
      (q.text != "" ==> Contains(memo.content, q.text))
  {
  }

  /** Clearing any one criterion never rejects a memo that was accepted. */
  lemma DroppingCriterionWidens(memo: Memo, q: Query, saved: Option<SavedQuery>, env: Collaborators)
    requires Decide(memo, q, saved, env) == Ok(true)
    ensures Decide(memo, q.(tag := ""), saved, env) == Ok(true)
    ensures Decide(memo, q.(duration := None), saved, env) == Ok(true)
    ensures Decide(memo, q.(memoType := ""), saved, env) == Ok(true)
    ensures Decide(memo, q.(text := ""), saved, env) == Ok(true)
    ensures Decide(memo, q, None, env) == Ok(true)
  {
  }

  // ---------------------------------------------------------------------
  // The list as a whole

  /** With nothing set and no saved query resolved, every memo is accepted. */
  lemma InactiveAcceptsAll(memo: Memo, q: Query, saved: Option<SavedQuery>, env: Collaborators)
    requires !ShowMemoFilter(q, saved)
    ensures Decide(memo, q, saved, env) == Ok(true)
  {
  }

  /** With nothing set and no saved query resolved, the list is the input, in its order. */
  lemma ShownWhenInactive(memos: seq<Memo>, q: Query, env: Collaborators)
    requires !ShowMemoFilter(q, env.queryById(q.filter))
    ensures Shown(memos, q, env) == Ok(memos)
  {
  }

  /**
   * The list throws exactly when a saved query is resolved, its querystring
   * is not valid JSON, and there is a memo to judge: invalid JSON does not
   * fail open.
   */
  lemma ShownThrowsIff(memos: seq<Memo>, q: Query, env: Collaborators)
    ensures Shown(memos, q, env).Err? <==>
      memos != [] && env.queryById(q.filter).Some? &&
      env.parseJson(env.queryById(q.filter).value.querystring).SyntaxError?
  {
    var saved := env.queryById(q.filter);
    var decide := Decider(q, saved, env);
    KeepThrowsIff(memos, decide);
    if memos != [] && saved.Some? && env.parseJson(saved.value.querystring).SyntaxError? {
      assert decide(memos[0]).Err?;
    }
  }

  /**
   * The list shown is an order-preserving subsequence of the memos, no
   * longer than them, holding exactly the memos the callback accepts.
   */
  lemma ShownSelects(memos: seq<Memo>, q: Query, env: Collaborators, shown: seq<Memo>)
    requires Shown(memos, q, env) == Ok(shown)
    ensures IsSubsequence(shown, memos) && |shown| <= |memos|
    ensures forall m :: m in shown ==> Decide(m, q, env.queryById(q.filter), env) == Ok(true)
    ensures forall i :: 0 <= i < |memos| && Decide(memos[i], q, env.queryById(q.filter), env) == Ok(true) ==>
      memos[i] in shown
    ensures |shown| == CountAccepted(memos, Decider(q, env.queryById(q.filter), env))
  {
    var saved := env.queryById(q.filter);
    var decide := Decider(q, saved, env);
    if !(ShowMemoFilter(q, saved) || saved.Some?) {
      forall i | 0 <= i < |memos| ensures Accepts(decide, memos[i]) {
        InactiveAcceptsAll(memos[i], q, saved, env);
      }
      KeepAll(memos, decide);
    }
    KeepIsSubsequence(memos, decide, shown);
    KeepCount(memos, decide, shown);
    KeepMembers(memos, decide, shown);
  }
}
