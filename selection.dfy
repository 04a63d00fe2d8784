/**
 * `Array.prototype.filter` with a callback that may throw: the kept
 * elements in their original order, or the first exception raised.
 */
module Selection {
  import opened Wrappers

  /** The callback accepted `x` without throwing. */
  predicate Accepts<T, E>(decide: T -> Result<bool, E>, x: T) {
    decide(x).Ok? && decide(x).value
  }

  /** `s.filter(decide)`, walked from the first element to the last. */
  function Keep<T, E>(s: seq<T>, decide: T -> Result<bool, E>): (kept: Result<seq<T>, E>)
    decreases |s|
  {
    if s == [] then Ok([])
    else
      match Keep(s[..|s| - 1], decide)
      case Err(e) => Err(e)
      case Ok(kept) =>
        match decide(s[|s| - 1])
        case Err(e) => Err(e)
        case Ok(b) => Ok(if b then kept + [s[|s| - 1]] else kept)
  }

  /** `r` is `s` with some elements left out and the rest in their original order. */
  predicate IsSubsequence<T(==)>(r: seq<T>, s: seq<T>)
    decreases |s|
  {
    if r == [] then true
    else if s == [] then false
    else (r[|r| - 1] == s[|s| - 1] && IsSubsequence(r[..|r| - 1], s[..|s| - 1])) || IsSubsequence(r, s[..|s| - 1])
  }

  /** How many positions of `s` the callback accepts. */
  function CountAccepted<T, E>(s: seq<T>, decide: T -> Result<bool, E>): nat
    decreases |s|
  {
    if s == [] then 0
    else CountAccepted(s[..|s| - 1], decide) + (if Accepts(decide, s[|s| - 1]) then 1 else 0)
  }

  /** A subsequence is never longer than the sequence it is taken from. */
  lemma {:induction false} SubsequenceLength<T>(r: seq<T>, s: seq<T>)
    requires IsSubsequence(r, s)
    ensures |r| <= |s|
    decreases |s|
  {
    if r != [] {
      if r[|r| - 1] == s[|s| - 1] && IsSubsequence(r[..|r| - 1], s[..|s| - 1]) {
        SubsequenceLength(r[..|r| - 1], s[..|s| - 1]);
      } else {
        SubsequenceLength(r, s[..|s| - 1]);
      }
    }
  }

  /** The filter throws exactly when the callback throws on some element. */
  lemma {:induction false} KeepThrowsIff<T, E>(s: seq<T>, decide: T -> Result<bool, E>)
    ensures Keep(s, decide).Err? <==> exists i :: 0 <= i < |s| && decide(s[i]).Err?
    decreases |s|
  {
    if s != [] {
      var init := s[..|s| - 1];
      KeepThrowsIff(init, decide);
      assert forall i :: 0 <= i < |init| ==> init[i] == s[i];
    }
  }

  /** Once a prefix of the walk has thrown, the whole walk throws the same exception. */
  lemma {:induction false} KeepPrefixThrows<T, E>(s: seq<T>, k: nat, decide: T -> Result<bool, E>)
    requires k <= |s| && Keep(s[..k], decide).Err?
    ensures Keep(s, decide) == Err(Keep(s[..k], decide).error)
    decreases |s|
  {
    if k < |s| {
      var init := s[..|s| - 1];
      assert init[..k] == s[..k];
      KeepPrefixThrows(init, k, decide);
    } else {
      assert s[..k] == s;
    }
  }

  /** A successful filter returns an order-preserving subsequence of its input. */
  lemma {:induction false} KeepIsSubsequence<T, E>(s: seq<T>, decide: T -> Result<bool, E>, r: seq<T>)
    requires Keep(s, decide) == Ok(r)
    ensures IsSubsequence(r, s) && |r| <= |s|
    decreases |s|
  {
    if s != [] {
      var init := s[..|s| - 1];
      var kept := Keep(init, decide).value;
      KeepIsSubsequence(init, decide, kept);
      if r != kept {
        assert r == kept + [s[|s| - 1]];
        assert r[..|r| - 1] == kept;
      }
      SubsequenceLength(r, s);
    }
  }

  /** A successful filter keeps exactly as many elements as the callback accepts. */
  lemma {:induction false} KeepCount<T, E>(s: seq<T>, decide: T -> Result<bool, E>, r: seq<T>)
    requires Keep(s, decide) == Ok(r)
    ensures |r| == CountAccepted(s, decide)
    decreases |s|
  {
    if s != [] {
      var init := s[..|s| - 1];
      KeepCount(init, decide, Keep(init, decide).value);
    }
  }

  /** A successful filter keeps every accepted element and nothing else. */
  lemma {:induction false} KeepMembers<T, E>(s: seq<T>, decide: T -> Result<bool, E>, r: seq<T>)
    requires Keep(s, decide) == Ok(r)
    ensures forall x :: x in r ==> Accepts(decide, x)
    ensures forall i :: 0 <= i < |s| && Accepts(decide, s[i]) ==> s[i] in r
    decreases |s|
  {
    if s != [] {
      var init := s[..|s| - 1];
      var kept := Keep(init, decide).value;
      KeepMembers(init, decide, kept);
      assert forall i :: 0 <= i < |init| ==> init[i] == s[i];
    }
  }

  /** A callback that accepts every element returns the input unchanged. */
  lemma {:induction false} KeepAll<T, E>(s: seq<T>, decide: T -> Result<bool, E>)
    requires forall i :: 0 <= i < |s| ==> Accepts(decide, s[i])
    ensures Keep(s, decide) == Ok(s)
    decreases |s|
  {
    if s != [] {
      var init := s[..|s| - 1];
      assert forall i :: 0 <= i < |init| ==> init[i] == s[i];
      KeepAll(init, decide);
      assert init + [s[|s| - 1]] == s;
    }
  }
}
