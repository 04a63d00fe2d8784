/**
 * Hierarchical tags. Every match of the two tag patterns is reduced to its
 * capture group, trimmed, split on `/`, and each running prefix of the
 * segments (`a`, `a/b`, `a/b/c`) joins the memo's tag set.
 */
module Tags {
  import opened JsString
  import opened Memos

  /** `q` names `p` itself or one of its ancestors: `q` is `p` cut just before a `/`, or all of `p`. */
  predicate IsPathPrefix(q: string, p: string) {
    |q| <= |p| && q == p[..|q|] && (|q| == |p| || p[|q|] == '/')
  }

  /** The running joins of `items`: `items[0]`, `items[0]/items[1]`, ... */
  function PathPrefixes(items: seq<string>): (prefixes: set<string>)
    decreases |items|
  {
    if items == [] then {} else PathPrefixes(items[..|items| - 1]) + {Join(items)}
  }

  /** The tag text a match stands for: its capture group, trimmed. */
  function Payload(re: RegExp, t: string): string {
    Trim(re.replaceWithGroup(t))
  }

  /** The payloads of the matches `ms` of pattern `re`, in match order. */
  function Payloads(re: RegExp, ms: seq<string>): (ps: seq<string>)
    ensures |ps| == |ms|
    decreases |ms|
  {
    if ms == [] then [] else Payloads(re, ms[..|ms| - 1]) + [Payload(re, ms[|ms| - 1])]
  }

  /** The payload list holds the payload of each match at the match's position. */
  lemma {:induction false} PayloadsAt(re: RegExp, ms: seq<string>, i: int)
    requires 0 <= i < |ms|
    ensures Payloads(re, ms)[i] == Payload(re, ms[i])
    decreases |ms|
  {
    if i < |ms| - 1 {
      PayloadsAt(re, ms[..|ms| - 1], i);
    }
  }

  /** The tags contributed by a list of payloads. */
  function TagsOf(ps: seq<string>): (tags: set<string>)
    decreases |ps|
  {
    if ps == [] then {} else TagsOf(ps[..|ps| - 1]) + PathPrefixes(Split(ps[|ps| - 1]))
  }

  /** The tag set of a memo's content: the tags of both tag patterns together. */
  function ContentTags(content: string, env: Collaborators): (tags: set<string>) {
    TagsOf(Payloads(env.tagReg, env.tagReg.matchAll(content))) +
    TagsOf(Payloads(env.nopFirstTagReg, env.nopFirstTagReg.matchAll(content)))
  }

  /** The inner loop: adds `temp` after each segment, then extends it with `/`. */
  method AddPathPrefixes(tags: set<string>, items: seq<string>) returns (r: set<string>)
    ensures r == tags + PathPrefixes(items)
  {
    r := tags;
    var temp := "";
    for k := 0 to |items|
      invariant r == tags + PathPrefixes(items[..k])
      invariant temp == if k == 0 then "" else Join(items[..k]) + "/"
    {
      assert items[..k + 1][..k] == items[..k];
      assert Join(items[..k + 1]) == (if k == 0 then "" else Join(items[..k]) + "/") + items[k];
      temp := temp + items[k];
      r := r + {temp};
      temp := temp + "/";
    }
    assert items[..|items|] == items;
  }

  /** One outer loop: for each match, strip, trim, split and add the running prefixes. */
  method AddMatchTags(tags: set<string>, re: RegExp, ms: seq<string>) returns (r: set<string>)
    ensures r == tags + TagsOf(Payloads(re, ms))
  {
    r := tags;
    for k := 0 to |ms|
      invariant r == tags + TagsOf(Payloads(re, ms[..k]))
    {
      var tag := Trim(re.replaceWithGroup(ms[k]));
      var items := Split(tag);
      PayloadsSnoc(re, ms, k);
      r := AddPathPrefixes(r, items);
    }
    assert ms[..|ms|] == ms;
  }

  /** One more match adds the tags of its payload. */
  lemma PayloadsSnoc(re: RegExp, ms: seq<string>, k: int)
    requires 0 <= k < |ms|
    ensures TagsOf(Payloads(re, ms[..k + 1])) == TagsOf(Payloads(re, ms[..k])) + PathPrefixes(Split(Payload(re, ms[k])))
  {
    assert ms[..k + 1][..k] == ms[..k];
    var ps := Payloads(re, ms[..k]);
    assert Payloads(re, ms[..k + 1]) == ps + [Payload(re, ms[k])];
    assert (ps + [Payload(re, ms[k])])[..|ps|] == ps;
  }

  /** The tag set the list builds for a memo when a tag query is active. */
  method CollectTags(content: string, env: Collaborators) returns (tags: set<string>)
    ensures tags == ContentTags(content, env)
  {
    tags := {};
    tags := AddMatchTags(tags, env.tagReg, env.tagReg.matchAll(content));
    tags := AddMatchTags(tags, env.nopFirstTagReg, env.nopFirstTagReg.matchAll(content));
  }

  /** Extending a path by one slash-free segment adds exactly the new path to its ancestors. */
  lemma PathPrefixExtend(q: string, j: string, x: string)
    requires '/' !in x
    ensures IsPathPrefix(q, j + "/" + x) <==> IsPathPrefix(q, j) || q == j + "/" + x
  {
    var p := j + "/" + x;
    if |q| < |j| {
      assert p[..|q|] == j[..|q|] && p[|q|] == j[|q|];
    } else if |q| == |j| {
      assert p[..|q|] == j && p[|q|] == '/';
    } else if |q| < |p| {
      assert p[|q|] == x[|q| - |j| - 1];
    }
  }

  /** The running joins of slash-free segments are exactly the path prefixes of their join. */
  lemma {:induction false} PathPrefixesOfJoin(items: seq<string>, q: string)
    requires |items| >= 1 && SlashFree(items)
    ensures q in PathPrefixes(items) <==> IsPathPrefix(q, Join(items))
    decreases |items|
  {
    var n := |items|;
    if n == 1 {
      var x := items[0];
      assert PathPrefixes(items) == {x} by {
        assert items[..0] == [];
      }
      assert |q| < |x| ==> x[|q|] in x;
      assert x[..|x|] == x;
    } else {
      var init := items[..n - 1];
      PathPrefixesOfJoin(init, q);
      PathPrefixExtend(q, Join(init), items[n - 1]);
    }
  }

  /**
   * Prefix closure: the tags one payload contributes are exactly the payload
   * and each of its parents, cut at a `/`.
   */
  lemma TagPrefixClosure(p: string, q: string)
    ensures q in PathPrefixes(Split(p)) <==> IsPathPrefix(q, p)
  {
    SplitSlashFree(p);
    JoinSplit(p);
    PathPrefixesOfJoin(Split(p), q);
  }

  /** Ancestry is transitive: the parent of a tag is a tag too. */
  lemma PathPrefixTransitive(r: string, q: string, p: string)
    requires IsPathPrefix(r, q) && IsPathPrefix(q, p)
    ensures IsPathPrefix(r, p)
  {
    if |r| < |q| {
      assert p[|r|] == q[|r|];
    }
  }

  /** `"a/b/c"` contributes `a`, `a/b` and `a/b/c`. */
  lemma ThreeLevelPayload()
    ensures PathPrefixes(Split("a/b/c")) == {"a", "a/b", "a/b/c"}
  {
    var items: seq<string> := ["a", "b", "c"];
    assert Split("a/b/c") == items by {
      assert items[..2] == ["a", "b"] && items[..2][..1] == ["a"];
      assert Join(items) == "a/b/c";
      assert SlashFree(items);
      SplitJoin(items);
    }
    assert items[..2] == ["a", "b"] && items[..2][..1] == ["a"] && ["a"][..0] == [];
    assert Join(["a"]) == "a";
    assert PathPrefixes(["a"]) == {"a"};
    assert Join(["a", "b"]) == "a/b";
    assert PathPrefixes(["a", "b"]) == {"a", "a/b"};
    assert Join(items) == "a/b/c";
  }

  /** A trailing slash leaves an empty last segment: `"a/"` contributes `a` and `a/`. */
  lemma TrailingSlashPayload()
    ensures PathPrefixes(Split("a/")) == {"a", "a/"}
  {
    var items := ["a", ""];
    assert Join(items[..1]) == "a";
    assert Join(items) == "a/";
    SplitJoin(items);
    assert items[..2][..1] == items[..1] && items[..1][..0] == [];
  }

  /** A payload `a/b` answers the query `a`; a payload `a` does not answer the query `a/b`. */
  lemma ParentAndChildQueries()
    ensures "a" in PathPrefixes(Split("a/b"))
    ensures "a/b" !in PathPrefixes(Split("a"))
  {
    TagPrefixClosure("a/b", "a");
    TagPrefixClosure("a", "a/b");
  }

  /** A string is a tag of the payloads `ps` exactly when it is a path prefix of one of them. */
  lemma {:induction false} TagsOfMembership(ps: seq<string>, q: string)
    ensures q in TagsOf(ps) <==> exists i :: 0 <= i < |ps| && IsPathPrefix(q, ps[i])
    decreases |ps|
  {
    if ps != [] {
      var n := |ps|;
      var init := ps[..n - 1];
      TagsOfMembership(init, q);
      TagPrefixClosure(ps[n - 1], q);
      if q in TagsOf(init) {
        var i :| 0 <= i < n - 1 && IsPathPrefix(q, init[i]);
        assert init[i] == ps[i];
      } else if q !in PathPrefixes(Split(ps[n - 1])) {
        forall i | 0 <= i < n
          ensures !IsPathPrefix(q, ps[i])
        {
          if i < n - 1 {
            assert init[i] == ps[i];
          }
        }
      }
    }
  }

  /** Payloads contribute no tag exactly when there are none. */
  lemma {:induction false} TagsOfEmpty(ps: seq<string>)
    ensures TagsOf(ps) == {} <==> ps == []
  {
    if ps != [] {
      var p := ps[|ps| - 1];
      TagPrefixClosure(p, p);
    }
  }

  /** A string is a tag of a pattern's matches exactly when it is a path prefix of one of their payloads. */
  lemma MatchesMembership(re: RegExp, ms: seq<string>, q: string)
    ensures q in TagsOf(Payloads(re, ms)) <==> exists i :: 0 <= i < |ms| && IsPathPrefix(q, Payload(re, ms[i]))
  {
    var ps := Payloads(re, ms);
    TagsOfMembership(ps, q);
    if q in TagsOf(ps) {
      var i :| 0 <= i < |ps| && IsPathPrefix(q, ps[i]);
      PayloadsAt(re, ms, i);
    }
    if exists i :: 0 <= i < |ms| && IsPathPrefix(q, Payload(re, ms[i])) {
      var i :| 0 <= i < |ms| && IsPathPrefix(q, Payload(re, ms[i]));
      PayloadsAt(re, ms, i);
    }
  }

  /** The memo's tags are the path prefixes of the payloads of both patterns' matches. */
  lemma ContentTagsMembership(content: string, env: Collaborators, q: string)
    ensures q in ContentTags(content, env) <==>
      (exists i :: 0 <= i < |env.tagReg.matchAll(content)| &&
        IsPathPrefix(q, Payload(env.tagReg, env.tagReg.matchAll(content)[i]))) ||
      (exists i :: 0 <= i < |env.nopFirstTagReg.matchAll(content)| &&
        IsPathPrefix(q, Payload(env.nopFirstTagReg, env.nopFirstTagReg.matchAll(content)[i])))
  {
    MatchesMembership(env.tagReg, env.tagReg.matchAll(content), q);
    MatchesMembership(env.nopFirstTagReg, env.nopFirstTagReg.matchAll(content), q);
  }

  /** A memo has no tag exactly when neither tag pattern matches its content. */
  lemma ContentTagsEmpty(content: string, env: Collaborators)
    ensures ContentTags(content, env) == {} <==> !Matches(env.tagReg, content) && !Matches(env.nopFirstTagReg, content)
  {
    TagsOfEmpty(Payloads(env.tagReg, env.tagReg.matchAll(content)));
    TagsOfEmpty(Payloads(env.nopFirstTagReg, env.nopFirstTagReg.matchAll(content)));
  }
}
