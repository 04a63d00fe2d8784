# Memo-list filtering in Obsidian-Memos

This project models the filtering engine of the `MemoList` component of
Obsidian-Memos: given the memos and the current location query, it decides
which memos the list shows. A query has five optional parts: a tag, a date
range, a content type, a text string and the id of a saved query.

- **Tags** (module `Tags`). The engine scans the memo content for every match
  of the two tag patterns, `TAG_REG` and `NOP_FIRST_TAG_REG`. It reduces each
  match to its capture group and trims it. It then splits the result on `/`
  and adds each running prefix (`a`, `a/b`, `a/b/c`) to a set. The loops are
  the methods `AddPathPrefixes`, `AddMatchTags` and `CollectTags`.
  `AddPathPrefixes` is proved to add exactly `PathPrefixes(items)`,
  `AddMatchTags` exactly `TagsOf(Payloads(re, ms))`, and `CollectTags` to
  return `ContentTags`. That set is then
  characterised without loops: the set a payload `p` contributes is exactly
  `{q | IsPathPrefix(q, p)}`.
- **Per-memo decision** (module `MemoList`). `ShouldShow` works like the
  source's callback. Its flag starts `true`. The saved filter's verdict may
  overwrite it, and each criterion that is set and fails lowers it to
  `false`. The method is proved equal to `Decide`, which ANDs `SavedVerdict`,
  `TagOk`, `DateOk`, `TypeOk` and `TextOk`.
- **The list** (modules `MemoList` and `Selection`). `Shown` returns the
  input unchanged when `showMemoFilter` is false. Otherwise it is
  `Array.prototype.filter` with the callback, modelled by `Keep`, which keeps
  accepted memos in order or stops at the first exception. `ShownMemos`
  performs that walk with a loop, because the callback is a method.
- **JavaScript strings** (module `JsString`). `trim`, `split("/")` and
  `includes` are written out. `trim` removes the ECMAScript white-space and
  line-terminator characters. `Split` is specified by `Join` and is proved to
  be its inverse in both directions.

The collaborators the component imports are carried in a `Collaborators`
value of functions, so every result holds whatever pure, non-throwing functions they are. They are
the five regular-expression constants, `utils.getTimeStampByDate`,
`queryService.getQueryById`, `JSON.parse` and
`checkShouldShowMemoWithFilters`. `JSON.parse` is modelled only by its
outcome: it throws, yields an array, or yields any other value.

Two behaviours of the code are worth stating:
- Invalid JSON in a saved querystring does not fail open. `JSON.parse` at
  src/components/MemoList.tsx:35 is not guarded, so the exception escapes
  from the first memo judged. `ShownThrowsIff` states when this happens. If
  there are no memos, the callback never runs and nothing is thrown.
- The component does not define how the saved filter combines its
  conditions (AND or OR); `checkShouldShowMemoWithFilters` does, and the
  model keeps that helper abstract. The model passes the parsed array, unread, to the abstract
  evaluator.

## Model

| member | source | states |
|---|---|---|
| JsString.TrimStart | src/components/MemoList.tsx:45 | the result is the suffix after the longest leading white-space run, and it does not start with white space |
| JsString.TrimEnd | src/components/MemoList.tsx:45 | the result is the prefix before the longest trailing white-space run, and it does not end with white space |
| JsString.Trim | src/components/MemoList.tsx:45 | `trim()` returns a slice of its input with only white space cut on both sides and none left at either end |
| JsString.SplitSlashFree | src/components/MemoList.tsx:46 | no segment produced by `split("/")` contains `/` |
| JsString.JoinSplit | src/components/MemoList.tsx:46 | joining the segments of `split("/")` with `/` gives back the original string |
| JsString.SplitJoin | src/components/MemoList.tsx:56 | splitting a `/`-join of one or more slash-free segments gives back those segments |
| JsString.Contains | src/components/MemoList.tsx:86 | `includes` is true exactly when the text occurs at some index of the content, literally and case-sensitively |
| Tags.AddPathPrefixes | src/components/MemoList.tsx:47-52 | the `temp` accumulator loop adds exactly the running `/`-joins of the segments to the set |
| Tags.AddMatchTags | src/components/MemoList.tsx:44-53 | the loop over one pattern's matches adds exactly the tags of their trimmed capture groups |
| Tags.CollectTags | src/components/MemoList.tsx:43-63 | the set built from both tag patterns equals the memo's tag set `ContentTags` |
| Tags.PathPrefixesOfJoin | src/components/MemoList.tsx:47-52 | the running joins of slash-free segments are exactly the path prefixes of their full join |
| Tags.TagPrefixClosure | src/components/MemoList.tsx:45-52 | a payload contributes exactly itself and each of its prefixes that ends just before a `/` |
| Tags.PathPrefixTransitive | src/components/MemoList.tsx:48-52 | an ancestor of an ancestor of a tag is an ancestor of that tag |
| Tags.ThreeLevelPayload | src/components/MemoList.tsx:46-52 | the payload `a/b/c` contributes exactly `{a, a/b, a/b/c}` |
| Tags.TrailingSlashPayload | src/components/MemoList.tsx:46-52 | the payload `a/` contributes exactly `{a, a/}`, because the empty last segment is kept |
| Tags.ParentAndChildQueries | src/components/MemoList.tsx:64 | the payload `a/b` answers the query `a`, and the payload `a` does not answer `a/b` |
| Tags.TagsOfMembership | src/components/MemoList.tsx:44-53 | a string is a tag of a list of payloads exactly when it is a path prefix of one of them |
| Tags.MatchesMembership | src/components/MemoList.tsx:44-53 | a string is a tag of a pattern's matches exactly when it is a path prefix of the trimmed capture group of one of them |
| Tags.TagsOfEmpty | src/components/MemoList.tsx:44-53 | payloads contribute no tag exactly when there are none, since each payload contributes at least itself |
| Tags.ContentTagsMembership | src/components/MemoList.tsx:43-63 | the memo's tag set is the union of the path prefixes of the payloads of both patterns |
| Tags.ContentTagsEmpty | src/components/MemoList.tsx:76 | the tag set is empty exactly when neither `TAG_REG` nor `NOP_FIRST_TAG_REG` matches |
| Selection.KeepThrowsIff | src/components/MemoList.tsx:31 | `filter` throws exactly when the callback throws on some element |
| Selection.KeepPrefixThrows | src/components/MemoList.tsx:31 | once the walk throws on a prefix, the whole `filter` throws the same exception |
| Selection.KeepIsSubsequence | src/components/MemoList.tsx:31-91 | a successful `filter` returns an order-preserving subsequence of its input, no longer than the input |
| Selection.KeepCount | src/components/MemoList.tsx:31-91 | a successful `filter` keeps as many elements as there are accepted positions |
| Selection.KeepMembers | src/components/MemoList.tsx:31-91 | a successful `filter` keeps every accepted element and only accepted ones |
| Selection.KeepAll | src/components/MemoList.tsx:31-91 | a callback that accepts everything returns the input unchanged |
| MemoList.ShouldShow | src/components/MemoList.tsx:31-90 | the flag-overwriting callback returns the AND of the saved-filter verdict and every set criterion, or the parse exception |
| MemoList.ShownMemos | src/components/MemoList.tsx:29-92 | the walk over the memos returns what `Shown` specifies |
| MemoList.TagCriterion | src/components/MemoList.tsx:42-66 | a tag query accepts a memo exactly when it is a path prefix of some payload of either tag pattern |
| MemoList.TagQueryParent | src/components/MemoList.tsx:42-66 | a memo that satisfies a tag query satisfies every ancestor of that tag |
| MemoList.DateCriterion | src/components/MemoList.tsx:68-74 | if `from < to`, a memo passes exactly when `from <= ts(createdAt) <= to`, bounds inclusive; otherwise, or with no range, every memo passes |
| MemoList.NotTaggedMeansNoTags | src/components/MemoList.tsx:76-77 | `NOT_TAGGED` keeps a memo exactly when its derived tag set is empty |
| MemoList.TypeCriterion | src/components/MemoList.tsx:75-85 | `NOT_TAGGED` rejects a memo if either tag pattern matches; `LINKED`, `IMAGED` and `CONNECTED` require a match of their pattern; any other value imposes nothing |
| MemoList.TextCriterion | src/components/MemoList.tsx:86-88 | a non-empty text keeps a memo exactly when the text occurs literally in its content; an empty text imposes nothing |
| MemoList.SavedFilterCriterion | src/components/MemoList.tsx:34-39 | an array querystring ANDs the evaluator's verdict with the other criteria; a non-array adds nothing; invalid JSON throws |
| MemoList.DecideAccepts | src/components/MemoList.tsx:32-90 | a memo is accepted exactly when the saved filter and every set criterion accept it |
| MemoList.DroppingCriterionWidens | src/components/MemoList.tsx:32-90 | clearing any criterion, or the saved query, never rejects a memo that was accepted |
| MemoList.InactiveAcceptsAll | src/components/MemoList.tsx:27 | when `showMemoFilter` is false, the callback accepts every memo |
| MemoList.ShownWhenInactive | src/components/MemoList.tsx:27-31 | with nothing set and no saved query resolved, the result is the input itself |
| MemoList.ShownThrowsIff | src/components/MemoList.tsx:29-37 | the list throws exactly when a saved query is resolved, its querystring is not valid JSON, and there is at least one memo |
| MemoList.ShownSelects | src/components/MemoList.tsx:29-92 | the result is an order-preserving subsequence of the memos, no longer than them, holding exactly the accepted memos |

## Left out

- src/setting.ts is not part of this model. It is the settings tab built on the Obsidian API, with a debounced save, and has no filtering logic.
- Fetching memos and daily notes in `useEffect`, with their error toasts (src/components/MemoList.tsx:94-111), is left out. It is asynchronous I/O.
- Scrolling to the top on a query change, and the rendering, are left out. This includes the status text at line 146, which is presentation.
- `handleMemoListClick` (src/components/MemoList.tsx:117-137) is left out. It reads the DOM and navigates through the host workspace.
- The patterns inside the regular-expression constants are not modelled. Nor are `utils.getTimeStampByDate`, `queryService.getQueryById`, `JSON.parse` or `checkShouldShowMemoWithFilters`. They are kept abstract as parameters of the model, and the results hold for any pure, non-throwing behaviour of theirs.
- The fields of a saved-filter element are carried but never interpreted. Only the abstract evaluator reads them.
- Timestamps and range bounds are mathematical integers. JavaScript's floating-point numbers, including `NaN` from an unparsable date, are not modelled.
- `null`, `undefined` and `""` in the query's string fields are all modelled as the empty string. All three are falsy in the source's tests.
- ShownMemos: `Array.prototype.filter` is written as an explicit loop, because the callback it applies is a method.
- ShownThrowsIff: its only-if direction rests on the collaborators being pure and non-throwing. An exception from `checkShouldShowMemoWithFilters` (for instance on array elements such as `null`), from `getTimeStampByDate` or from a regular-expression call is not modelled.
- Strings are sequences of Unicode scalar values, while JavaScript strings are sequences of UTF-16 code units, so lone surrogates cannot be represented. On well-formed text `trim`, `split("/")` and `includes` behave the same on both views.
