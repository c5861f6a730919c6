/** The string helpers of `ZanString`. Nullable arguments are `Option`s and
    PHP truthiness is `Falsy`: null, "" and "0" are false. */
module ZanString {
  import opened Php

  /** removePrefix: `s` without `prefix` when it starts with it. The empty
      prefix starts every string, so it removes nothing. */
  function RemovePrefix(s: string, prefix: string): (r: string)
    ensures IsPrefix(prefix, s) ==> prefix + r == s
    ensures !IsPrefix(prefix, s) ==> r == s
    ensures prefix == "" ==> r == s
  {
    if IsPrefix(prefix, s) then s[|prefix|..] else s
  }

  /** `n` occurs in `h` starting at position `k`. */
  predicate OccursAt(h: string, n: string, k: int)
  {
    0 <= k && k + |n| <= |h| && h[k..k + |n|] == n
  }

  /** The last occurrence of `n` in `h` starting at or before `i`. */
  function LastIndexFrom(h: string, n: string, i: nat): (r: Option<nat>)
    requires i + |n| <= |h|
    ensures r.Some? ==> r.value <= i && OccursAt(h, n, r.value)
    ensures forall k :: k <= i && OccursAt(h, n, k) ==> r.Some? && k <= r.value
    decreases i
  {
    if h[i..i + |n|] == n then Some(i)
    else if i == 0 then None
    else LastIndexFrom(h, n, i - 1)
  }

  /** `strrpos`: the position of the last occurrence of `n` in `h`, if any. */
  function LastIndexOf(h: string, n: string): (r: Option<nat>)
    ensures r.Some? ==> OccursAt(h, n, r.value)
    ensures forall k :: OccursAt(h, n, k) ==> r.Some? && k <= r.value
  {
    if |n| > |h| then None else LastIndexFrom(h, n, |h| - |n|)
  }

  /** endsWith: both arguments truthy and the last occurrence of the needle
      is where a suffix would start. */
  function EndsWith(haystack: Option<string>, needle: Option<string>): bool
  {
    if Falsy(haystack) || Falsy(needle) then false
    else
      match LastIndexOf(haystack.value, needle.value)
      case None => false
      case Some(p) => p == |haystack.value| - |needle.value|
  }

  /** The last-occurrence test is the suffix test, for truthy arguments. */
  lemma EndsWithIsSuffix(haystack: Option<string>, needle: Option<string>)
    ensures EndsWith(haystack, needle) <==>
            !Falsy(haystack) && !Falsy(needle) && IsSuffix(needle.value, haystack.value)
  {
    if !Falsy(haystack) && !Falsy(needle) {
      var h, n := haystack.value, needle.value;
      if IsSuffix(n, h) {
        assert OccursAt(h, n, |h| - |n|);
      }
    }
  }

  /** removePostfix: the input itself when either argument is falsy or it
      does not end with the postfix; otherwise the input without it. */
  function RemovePostfix(s: Option<string>, postfix: Option<string>): (r: Option<string>)
    ensures Falsy(s) || Falsy(postfix) ==> r == s
    ensures EndsWith(s, postfix) ==> r.Some? && r.value + postfix.value == s.value
    ensures !EndsWith(s, postfix) ==> r == s
  {
    if Falsy(s) || Falsy(postfix) then s
    else if EndsWith(s, postfix) then
      EndsWithIsSuffix(s, postfix);
      Some(s.value[..|s.value| - |postfix.value|])
    else s
  }

  /** startsWithi: both arguments truthy and the lower-cased haystack starts
      with the lower-cased needle. */
  function StartsWithI(haystack: Option<string>, needle: Option<string>): bool
  {
    if Falsy(haystack) || Falsy(needle) then false
    else IsPrefix(Lower(needle.value), Lower(haystack.value))
  }

  /** startsWithi compares the needle's characters with the haystack's
      first ones, ignoring ASCII case. */
  lemma StartsWithIChars(haystack: Option<string>, needle: Option<string>)
    ensures StartsWithI(haystack, needle) <==>
            && !Falsy(haystack) && !Falsy(needle)
            && |needle.value| <= |haystack.value|
            && forall k :: 0 <= k < |needle.value| ==>
                 LowerChar(haystack.value[k]) == LowerChar(needle.value[k])
  {
    if !Falsy(haystack) && !Falsy(needle) && |needle.value| <= |haystack.value| {
      var h, n := Lower(haystack.value), Lower(needle.value);
      if forall k :: 0 <= k < |needle.value| ==> LowerChar(haystack.value[k]) == LowerChar(needle.value[k]) {
        assert h[..|n|] == n;
      }
    }
  }

  /** Two nullable strings equal up to ASCII case. */
  predicate SameUpToCase(a: Option<string>, b: Option<string>)
  {
    (a.None? && b.None?) || (a.Some? && b.Some? && Lower(a.value) == Lower(b.value))
  }

  /** startsWithi cannot tell case changes of either argument apart. */
  lemma StartsWithICaseInvariant(h: Option<string>, h': Option<string>, n: Option<string>, n': Option<string>)
    requires SameUpToCase(h, h') && SameUpToCase(n, n')
    ensures StartsWithI(h, n) == StartsWithI(h', n')
  {
    if h.Some? {
      LowerKeepsFalsy(h.value);
      LowerKeepsFalsy(h'.value);
    }
    if n.Some? {
      LowerKeepsFalsy(n.value);
      LowerKeepsFalsy(n'.value);
    }
  }
}
