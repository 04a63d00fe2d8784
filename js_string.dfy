/**
 * The three JavaScript string operations the memo-list filter relies on:
 * `String.prototype.trim`, `String.prototype.split` with a one-character
 * separator, and `String.prototype.includes`. Strings are sequences of
 * characters; `Join` is the inverse of `Split` and specifies it.
 */
module JsString {

  /** The ECMAScript WhiteSpace and LineTerminator code points that `trim` removes. */
  predicate IsWhiteSpace(c: char) {
    var n := c as int;
    n == 0x09 || n == 0x0A || n == 0x0B || n == 0x0C || n == 0x0D || n == 0x20 ||
    n == 0xA0 || n == 0x1680 || (0x2000 <= n <= 0x200A) || n == 0x2028 || n == 0x2029 ||
    n == 0x202F || n == 0x205F || n == 0x3000 || n == 0xFEFF
  }

  /** Drops leading white space: the result is the suffix left after the longest white-space prefix. */
  function TrimStart(s: string): (r: string)
    ensures |r| <= |s| && r == s[|s| - |r|..]
    ensures forall k :: 0 <= k < |s| - |r| ==> IsWhiteSpace(s[k])
    ensures r == [] || !IsWhiteSpace(r[0])
    decreases |s|
  {
    if s != [] && IsWhiteSpace(s[0]) then TrimStart(s[1..]) else s
  }

  /** Drops trailing white space: the result is the prefix left before the longest white-space suffix. */
  function TrimEnd(s: string): (r: string)
    ensures |r| <= |s| && r == s[..|r|]
    ensures forall k :: |r| <= k < |s| ==> IsWhiteSpace(s[k])
    ensures r == [] || !IsWhiteSpace(r[|r| - 1])
    decreases |s|
  {
    if s != [] && IsWhiteSpace(s[|s| - 1]) then TrimEnd(s[..|s| - 1]) else s
  }

  /** `r` is the slice of `s` starting at `i`, and everything around it is white space. */
  predicate IsCoreAt(s: string, r: string, i: int) {
    0 <= i <= |s| - |r| && r == s[i..i + |r|] &&
    (forall k :: 0 <= k < i ==> IsWhiteSpace(s[k])) &&
    (forall k :: i + |r| <= k < |s| ==> IsWhiteSpace(s[k]))
  }

  /** `s.trim()`: a slice of `s` with no white space at either end, only white space cut away. */
  function Trim(s: string): (r: string)
    ensures exists i :: IsCoreAt(s, r, i)
    ensures r == [] || (!IsWhiteSpace(r[0]) && !IsWhiteSpace(r[|r| - 1]))
  {
    var t := TrimStart(s);
    var r := TrimEnd(t);
    assert IsCoreAt(s, r, |s| - |t|);
    r
  }

  /** `s.split("/")`, built from the back one character at a time: a slash opens a new segment. */
  function Split(s: string): (r: seq<string>)
    ensures |r| >= 1
    decreases |s|
  {
    if s == [] then [""]
    else
      var init := Split(s[..|s| - 1]);
      var c := s[|s| - 1];
      if c == '/' then init + [""]
      else init[..|init| - 1] + [init[|init| - 1] + [c]]
  }

  /** `items.join("/")`. */
  function Join(items: seq<string>): (s: string)
    decreases |items|
  {
    if |items| == 0 then ""
    else if |items| == 1 then items[0]
    else Join(items[..|items| - 1]) + "/" + items[|items| - 1]
  }

  /** No segment of `items` contains the separator. */
  predicate SlashFree(items: seq<string>) {
    forall i :: 0 <= i < |items| ==> '/' !in items[i]
  }

  /** Appending text to the last segment appends it to the joined string. */
  lemma {:induction false} JoinExtendLast(items: seq<string>, t: string)
    requires |items| >= 1
    ensures Join(items[..|items| - 1] + [items[|items| - 1] + t]) == Join(items) + t
  {
    var n := |items|;
    var ext := items[..n - 1] + [items[n - 1] + t];
    assert ext[..n - 1] == items[..n - 1];
  }

  /** Splitting never leaves a separator inside a segment. */
  lemma {:induction false} SplitSlashFree(s: string)
    ensures SlashFree(Split(s))
    decreases |s|
  {
    if s != [] {
      SplitSlashFree(s[..|s| - 1]);
    }
  }

  /** Joining the segments of `s` gives `s` back. */
  lemma {:induction false} JoinSplit(s: string)
    ensures Join(Split(s)) == s
    decreases |s|
  {
    if s != [] {
      var pre := s[..|s| - 1];
      var init := Split(pre);
      var c := s[|s| - 1];
      assert pre + [c] == s;
      JoinSplit(pre);
      if c == '/' {
        assert Split(s) == init + [""];
        assert (init + [""])[..|init|] == init;
        assert Join(init + [""]) == Join(init) + "/" + "";
      } else {
        assert Split(s) == init[..|init| - 1] + [init[|init| - 1] + [c]];
        JoinExtendLast(init, [c]);
      }
    }
  }

  /** A separator followed by slash-free text adds exactly one segment. */
  lemma {:induction false} SplitAppendSegment(s: string, x: string)
    requires '/' !in x
    ensures Split(s + "/" + x) == Split(s) + [x]
    decreases |x|
  {
    if x == [] {
      assert s + "/" + x == s + "/";
      assert (s + "/")[..|s|] == s;
    } else {
      var x' := x[..|x| - 1];
      SplitAppendSegment(s, x');
      assert (s + "/" + x)[..|s + "/" + x| - 1] == s + "/" + x';
      assert (Split(s) + [x'])[..|Split(s)|] == Split(s);
      assert x' + [x[|x| - 1]] == x;
    }
  }

  /** Slash-free text is a single segment. */
  lemma {:induction false} SplitSingleSegment(x: string)
    requires '/' !in x
    ensures Split(x) == [x]
    decreases |x|
  {
    if x != [] {
      var x' := x[..|x| - 1];
      SplitSingleSegment(x');
      assert x' + [x[|x| - 1]] == x;
    }
  }

  /** Splitting a join of slash-free segments gives the segments back. */
  lemma {:induction false} SplitJoin(items: seq<string>)
    requires |items| >= 1 && SlashFree(items)
    ensures Split(Join(items)) == items
    decreases |items|
  {
    var n := |items|;
    if n == 1 {
      SplitSingleSegment(items[0]);
    } else {
      var init := items[..n - 1];
      SplitJoin(init);
      SplitAppendSegment(Join(init), items[n - 1]);
      assert init + [items[n - 1]] == items;
    }
  }

  /** `sub` occurs in `s` starting at index `i`. */
  predicate OccursAt(s: string, sub: string, i: int) {
    0 <= i <= |s| - |sub| && s[i..i + |sub|] == sub
  }

  /** `s.includes(sub)`: `sub` occurs somewhere in `s` (the empty string occurs everywhere). */
  function Contains(s: string, sub: string): (r: bool)
    ensures r <==> exists i :: OccursAt(s, sub, i)
    decreases |s|
  {
    if |sub| <= |s| && s[..|sub|] == sub then
      assert OccursAt(s, sub, 0);
      true
    else if s == [] then
      false
    else
      var r := Contains(s[1..], sub);
      assert !OccursAt(s, sub, 0);
      assert forall j :: OccursAt(s, sub, j) ==> OccursAt(s[1..], sub, j - 1);
      assert forall j :: OccursAt(s[1..], sub, j) ==> OccursAt(s, sub, j + 1);
      r
  }
}
