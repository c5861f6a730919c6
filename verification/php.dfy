/** The PHP built-ins the helpers rely on, stated over `seq<char>`:
    nullable values, truthiness, `strpos`, `explode`, `join`, `trim` and
    ASCII `strtolower`; and a few sequence facts the contracts use. */
module Php {

  /** A PHP value that may be null (`?string` and friends). */
  datatype Option<+T> = None | Some(value: T)

  /** PHP truthiness of a nullable string: null, "" and "0" are false. */
  predicate Falsy(s: Option<string>)
  {
    s.None? || s.value == "" || s.value == "0"
  }

  predicate IsPrefix(p: string, s: string)
  {
    |p| <= |s| && s[..|p|] == p
  }

  predicate IsSuffix(p: string, s: string)
  {
    |p| <= |s| && s[|s| - |p|..] == p
  }

  lemma SeqAssoc<T>(a: seq<T>, b: seq<T>, c: seq<T>)
    ensures a + (b + c) == (a + b) + c
  {
  }

  /** The keys of a PHP array are distinct; a sequence of key/value pairs
      with distinct keys stands for one. */
  predicate DistinctKeys<V>(entries: seq<(string, V)>)
  {
    forall i, j :: 0 <= i < j < |entries| ==> entries[i].0 != entries[j].0
  }

  /** Number of occurrences of `x` in `s`. */
  function Count<T(==)>(s: seq<T>, x: T): nat
  {
    if |s| == 0 then 0 else (if s[0] == x then 1 else 0) + Count(s[1..], x)
  }

  lemma {:induction false} CountPositive<T>(s: seq<T>, x: T)
    ensures x in s <==> Count(s, x) > 0
  {
    if |s| > 0 {
      CountPositive(s[1..], x);
      assert s == [s[0]] + s[1..];
    }
  }

  lemma {:induction false} CountAppend<T>(a: seq<T>, b: seq<T>, x: T)
    ensures Count(a + b, x) == Count(a, x) + Count(b, x)
  {
    if |a| == 0 {
      assert a + b == b;
    } else {
      assert (a + b)[1..] == a[1..] + b;
      CountAppend(a[1..], b, x);
    }
  }

  /** `strpos($s, $c)` for a character known to occur: its first position. */
  function IndexOf(s: string, c: char): (i: nat)
    requires c in s
    ensures i < |s| && s[i] == c
    ensures c !in s[..i]
  {
    if s[0] == c then 0 else
      assert c in s[1..] by { assert s == [s[0]] + s[1..]; }
      var j := IndexOf(s[1..], c);
      assert s[..j + 1] == [s[0]] + s[1..][..j];
      j + 1
  }

  /** The first `c` of `b + [c] + rest` is the one after `b` when `b` has none. */
  lemma IndexOfAfter(b: string, c: char, rest: string)
    requires c !in b
    ensures c in b + [c] + rest
    ensures IndexOf(b + [c] + rest, c) == |b|
  {
    var s := b + [c] + rest;
    assert s[|b|] == c;
    assert s[..|b|] == b;
  }

  /** `explode($sep, $s)` for a one-character separator: at least one part,
      none containing the separator. */
  function Explode(sep: char, s: string): (parts: seq<string>)
    ensures |parts| >= 1
    ensures sep in s <==> |parts| >= 2
    ensures forall k :: 0 <= k < |parts| ==> sep !in parts[k]
    decreases |s|
  {
    if sep !in s then [s]
    else
      var i := IndexOf(s, sep);
      [s[..i]] + Explode(sep, s[i + 1..])
  }

  /** The first part of an explode runs up to the first separator. */
  lemma ExplodeHead(sep: char, s: string)
    ensures Explode(sep, s)[0] == if sep in s then s[..IndexOf(s, sep)] else s
  {
  }

  /** After the first separator, the remaining parts are those of the rest. */
  lemma ExplodeTail(sep: char, s: string)
    requires sep in s
    ensures Explode(sep, s) == [s[..IndexOf(s, sep)]] + Explode(sep, s[IndexOf(s, sep) + 1..])
  {
  }

  /** The first two parts of an explode: the text before the first separator,
      then the text up to the next one (or to the end). */
  lemma ExplodeFirstTwo(sep: char, s: string)
    requires sep in s
    ensures var i := IndexOf(s, sep);
            var rest := s[i + 1..];
            && Explode(sep, s)[0] == s[..i]
            && Explode(sep, s)[1] == if sep in rest then rest[..IndexOf(rest, sep)] else rest
  {
    var i := IndexOf(s, sep);
    ExplodeTail(sep, s);
    ExplodeHead(sep, s[i + 1..]);
  }

  /** `join($sep, $parts)`. */
  function Join(sep: string, parts: seq<string>): string
  {
    if |parts| == 0 then ""
    else if |parts| == 1 then parts[0]
    else parts[0] + sep + Join(sep, parts[1..])
  }

  /** Joining the parts of an explode with its separator gives the string back. */
  lemma {:induction false} JoinExplode(sep: char, s: string)
    ensures Join([sep], Explode(sep, s)) == s
    decreases |s|
  {
    if sep in s {
      var i := IndexOf(s, sep);
      var rest := Explode(sep, s[i + 1..]);
      JoinExplode(sep, s[i + 1..]);
      assert ([s[..i]] + rest)[1..] == rest;
      assert s == s[..i] + [sep] + s[i + 1..];
    }
  }

  /** A separator-free head followed by the separator is the first part. */
  lemma ExplodeAt(sep: char, head: string, tail: string)
    requires sep !in head
    ensures Explode(sep, head + [sep] + tail) == [head] + Explode(sep, tail)
  {
    var s := head + [sep] + tail;
    IndexOfAfter(head, sep, tail);
    assert s[..|head|] == head;
    assert s[|head| + 1..] == tail;
  }

  /** Exploding a join of separator-free parts gives the parts back. */
  lemma {:induction false} ExplodeJoin(sep: char, parts: seq<string>)
    requires |parts| >= 1
    requires forall k :: 0 <= k < |parts| ==> sep !in parts[k]
    ensures Explode(sep, Join([sep], parts)) == parts
  {
    if |parts| > 1 {
      var tail := Join([sep], parts[1..]);
      assert Join([sep], parts) == parts[0] + [sep] + tail;
      ExplodeJoin(sep, parts[1..]);
      ExplodeAt(sep, parts[0], tail);
      assert parts == [parts[0]] + parts[1..];
    }
  }

  /** The characters `trim` strips by default: " \t\n\r\0\x0B". */
  predicate IsTrimmed(c: char)
  {
    c == ' ' || c == '\t' || c == '\n' || c == '\r' || c == '\0' || c == '\U{B}'
  }

  predicate AllTrimmed(s: string)
  {
    forall k :: 0 <= k < |s| ==> IsTrimmed(s[k])
  }

  /** `ltrim`: the suffix left after dropping leading whitespace. */
  function TrimStart(s: string): (r: string)
    ensures IsSuffix(r, s)
    ensures AllTrimmed(s[..|s| - |r|])
    ensures r == [] || !IsTrimmed(r[0])
  {
    if |s| > 0 && IsTrimmed(s[0]) then
      var r := TrimStart(s[1..]);
      assert s[..|s| - |r|] == [s[0]] + s[1..][..|s| - 1 - |r|];
      r
    else s
  }

  /** `rtrim`: the prefix left after dropping trailing whitespace. */
  function TrimEnd(s: string): (r: string)
    ensures IsPrefix(r, s)
    ensures AllTrimmed(s[|r|..])
    ensures r == [] || !IsTrimmed(r[|r| - 1])
  {
    if |s| > 0 && IsTrimmed(s[|s| - 1]) then
      var r := TrimEnd(s[..|s| - 1]);
      assert s[|r|..] == s[..|s| - 1][|r|..] + [s[|s| - 1]];
      r
    else s
  }

  /** `trim`: whitespace dropped at both ends. */
  function Trim(s: string): string
  {
    TrimEnd(TrimStart(s))
  }

  /** Trimming is idempotent: the result has nothing left to strip. */
  lemma TrimIdempotent(s: string)
    ensures Trim(Trim(s)) == Trim(s)
  {
    var t := Trim(s);
    assert TrimStart(t) == t by {
      if |t| > 0 {
        assert t[0] == TrimStart(s)[0];
      }
    }
    assert TrimEnd(t) == t;
  }

  /** ASCII `strtolower` of one character. */
  function LowerChar(c: char): char
  {
    if 'A' <= c <= 'Z' then (c as int - 'A' as int + 'a' as int) as char else c
  }

  /** ASCII `strtolower`. */
  function Lower(s: string): (r: string)
    ensures |r| == |s|
    ensures forall k :: 0 <= k < |s| ==> r[k] == LowerChar(s[k])
  {
    seq(|s|, k requires 0 <= k < |s| => LowerChar(s[k]))
  }

  /** Lower-casing never produces "" or "0" from anything but "" or "0". */
  lemma LowerKeepsFalsy(s: string)
    ensures Falsy(Some(Lower(s))) <==> Falsy(Some(s))
  {
    if Lower(s) == "0" {
      assert LowerChar(s[0]) == '0';
    }
  }
}
