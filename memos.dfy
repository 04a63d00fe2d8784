/**
 * The values the memo list works on: memos, the location query, saved
 * queries, and the collaborators whose code lies outside the filter itself
 * (the regular-expression constants, the date-to-timestamp conversion, the
 * saved-query lookup, `JSON.parse` and the saved-filter evaluator). The
 * collaborators are carried as functions, so every property proved about
 * the filter holds whatever they compute.
 */
module Memos {
  import opened Wrappers

  /** A memo as the store hands it to the list. */
  datatype Memo = Memo(id: string, content: string, createdAt: string, updatedAt: string)

  /** A date range in timestamps; the filter uses it only when `from < to`. */
  datatype Duration = Duration(from: int, to: int)

  /**
   * The location query. The empty string stands for every falsy value of
   * the string fields (`""`, `null`, `undefined`).
   */
  datatype Query = Query(tag: string, duration: Option<Duration>, memoType: string, text: string, filter: string)

  /** A saved query: a serialized list of filter conditions. */
  datatype SavedQuery = SavedQuery(id: string, querystring: string)

  /** One element of a parsed saved query, handed on unread to the saved-filter evaluator. */
  datatype FilterNode = FilterNode(kind: string, value: string)

  /** What `JSON.parse` does with a querystring: throws, yields an array, or yields anything else. */
  datatype Parsed = SyntaxError | ArrayValue(elements: seq<FilterNode>) | OtherValue

  /** The exception that escapes the list computation. */
  datatype Exception = JsonSyntaxError

  /**
   * A global regular expression: `matchAll(s)` is the list of matched texts
   * (`s.match(re) ?? []`), `replaceWithGroup(t)` is `t.replace(re, "$1")`.
   */
  datatype RegExp = RegExp(matchAll: string -> seq<string>, replaceWithGroup: string -> string)

  /** `s.match(re) !== null`: JavaScript returns null exactly when there is no match. */
  predicate Matches(re: RegExp, s: string) {
    |re.matchAll(s)| > 0
  }

  /** Everything the filter calls but does not define. */
  datatype Collaborators = Collaborators(
    tagReg: RegExp,
    nopFirstTagReg: RegExp,
    linkReg: RegExp,
    imageUrlReg: RegExp,
    memoLinkReg: RegExp,
    timeStampByDate: string -> int,
    queryById: string -> Option<SavedQuery>,
    parseJson: string -> Parsed,
    showWithFilters: (Memo, seq<FilterNode>) -> bool)
}
