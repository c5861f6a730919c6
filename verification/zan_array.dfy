/** `ZanArray::createFromString`: turns a delimited string into a list, or
    into a hash when a key/value delimiter occurs, picking the item
    delimiter from `;` (or the forced one), `,` and `&` in that order. */
module ZanArray {
  import opened Php

  /** The two shapes of PHP array the function returns: a list with keys
      0, 1, ... or an ordered hash with string keys. */
  datatype PhpArray = List(items: seq<string>) | Hash(entries: seq<(string, string)>)

  /** The argument: null, a string, or an array already. */
  datatype Input = Null | Str(s: string) | Arr(a: PhpArray)

  /** `!$str`: null, "" and "0" are false. */
  predicate IsFalsy(input: Input)
  {
    input.Null? || (input.Str? && Falsy(Some(input.s)))
  }

  const Comma: char := ','
  const Ampersand: char := '&'

  /** The item delimiter: the forced one if the string holds it, else `,`
      if the string holds that, else `&`. The source reassigns one
      variable twice; so does this. */
  function ChooseDelimiter(s: string, force: char): (d: char)
    ensures force in s ==> d == force
    ensures force !in s && Comma in s ==> d == Comma
    ensures force !in s && Comma !in s ==> d == Ampersand
    ensures d in s || d == Ampersand
  {
    var d0 := force;
    var d1 := if d0 !in s then Comma else d0;
    if d1 !in s then Ampersand else d1
  }

  /** The `&` branch hands the string to `parse_str`. */
  predicate UsesParseStr(s: string, force: char)
  {
    var d := ChooseDelimiter(s, force);
    d == Ampersand && d in s
  }

  /** `list($key, $value) = explode($valueDelim, $item)`, both trimmed: the
      key is the text before the first delimiter, the value the text up to
      the next one; anything after that is dropped. */
  function SplitPair(item: string, vd: char): (p: (string, string))
    requires vd in item
    ensures var i := IndexOf(item, vd);
            var rest := item[i + 1..];
            && p.0 == Trim(item[..i])
            && p.1 == Trim(if vd in rest then rest[..IndexOf(rest, vd)] else rest)
  {
    ExplodeFirstTwo(vd, item);
    var parts := Explode(vd, item);
    (Trim(parts[0]), Trim(parts[1]))
  }

  /** Every non-blank item holds the value delimiter. An item without one
      makes the source read a missing list element, so such input is left
      out of the model. */
  predicate PairsWellDefined(items: seq<string>, vd: char)
  {
    forall i :: 0 <= i < |items| ==> Trim(items[i]) != "" ==> vd in Trim(items[i])
  }

  /** What the model covers: anything but the `parse_str` branch and split
      hash input with an item lacking the value delimiter. */
  predicate CanCreate(input: Input, force: char, vd: char)
  {
    input.Str? && !IsFalsy(input) ==>
      var s := input.s;
      var d := ChooseDelimiter(s, force);
      && !UsesParseStr(s, force)
      && (d in s && vd in s ==> PairsWellDefined(Explode(d, s), vd))
  }

  /** Keys of a hash, in order. */
  function Keys(entries: seq<(string, string)>): (ks: seq<string>)
    ensures |ks| == |entries|
    ensures forall i :: 0 <= i < |entries| ==> ks[i] == entries[i].0
  {
    if |entries| == 0 then [] else [entries[0].0] + Keys(entries[1..])
  }

  /** `$hash[$key]`, or None when the key is absent. */
  function Lookup(entries: seq<(string, string)>, k: string): (r: Option<string>)
    ensures r.None? <==> k !in Keys(entries)
    ensures r.Some? ==> (k, r.value) in entries
  {
    if |entries| == 0 then None
    else if entries[0].0 == k then Some(entries[0].1)
    else
      assert Keys(entries) == [entries[0].0] + Keys(entries[1..]);
      Lookup(entries[1..], k)
  }

  /** `$hash[$key] = $value`: an existing key keeps its place and takes the
      new value, a new key goes to the end. */
  function Assign(entries: seq<(string, string)>, k: string, v: string): (r: seq<(string, string)>)
    ensures Lookup(r, k) == Some(v)
    ensures forall k' :: k' != k ==> Lookup(r, k') == Lookup(entries, k')
  {
    if |entries| == 0 then [(k, v)]
    else if entries[0].0 == k then
      var r := [(k, v)] + entries[1..];
      assert r[1..] == entries[1..];
      r
    else
      var tail := Assign(entries[1..], k, v);
      var r := [entries[0]] + tail;
      assert r[1..] == tail;
      r
  }

  /** Assignment leaves the key order alone and appends a new key. */
  lemma {:induction false} AssignKeys(entries: seq<(string, string)>, k: string, v: string)
    ensures Keys(Assign(entries, k, v)) == if k in Keys(entries) then Keys(entries) else Keys(entries) + [k]
  {
    if |entries| > 0 {
      var r := Assign(entries, k, v);
      assert Keys(entries) == [entries[0].0] + Keys(entries[1..]);
      assert r[1..] == if entries[0].0 == k then entries[1..] else Assign(entries[1..], k, v);
      assert Keys(r) == [r[0].0] + Keys(r[1..]);
      if entries[0].0 != k {
        AssignKeys(entries[1..], k, v);
      }
    }
  }

  /** Assignment keeps the keys of a hash distinct. */
  lemma AssignDistinct(entries: seq<(string, string)>, k: string, v: string)
    requires DistinctKeys(entries)
    ensures DistinctKeys(Assign(entries, k, v))
  {
    var r := Assign(entries, k, v);
    var ks := Keys(r);
    AssignKeys(entries, k, v);
    forall i, j | 0 <= i < j < |r|
      ensures r[i].0 != r[j].0
    {
      assert ks[i] == r[i].0 && ks[j] == r[j].0;
      if k !in Keys(entries) && j == |entries| {
        assert ks[i] == Keys(entries)[i];
      } else {
        assert ks[i] == Keys(entries)[i] && ks[j] == Keys(entries)[j];
      }
    }
  }

  /** An item may be processed: in hash mode a non-blank item has a value
      delimiter. */
  predicate ItemWellDefined(item: string, hasValueDelim: bool, vd: char)
  {
    hasValueDelim && Trim(item) != "" ==> vd in Trim(item)
  }

  /** One turn of the loop: a blank item is skipped, any other is trimmed
      and appended to the list, or split into key and value and assigned. */
  function Step(acc: PhpArray, item: string, hasValueDelim: bool, vd: char): (r: PhpArray)
    requires ItemWellDefined(item, hasValueDelim, vd)
    requires hasValueDelim ==> acc.Hash?
    requires !hasValueDelim ==> acc.List?
    ensures r.Hash? == acc.Hash?
  {
    var t := Trim(item);
    if t == "" then acc
    else if hasValueDelim then
      var p := SplitPair(t, vd);
      Hash(Assign(acc.entries, p.0, p.1))
    else List(acc.items + [t])
  }

  /** The loop over the split items, first to last. */
  function Collect(acc: PhpArray, items: seq<string>, hasValueDelim: bool, vd: char): PhpArray
    requires hasValueDelim ==> acc.Hash? && PairsWellDefined(items, vd)
    requires !hasValueDelim ==> acc.List?
    decreases |items|
  {
    if |items| == 0 then acc
    else
      assert forall i :: 0 <= i < |items| - 1 ==> items[1..][i] == items[i + 1];
      Collect(Step(acc, items[0], hasValueDelim, vd), items[1..], hasValueDelim, vd)
  }

  /** `ZanArray::createFromString($str, $forceDelimiter, $forceValueDelimiter)`. */
  function CreateFromString(input: Input, forceDelimiter: char := ';', forceValueDelimiter: char := '='): (r: PhpArray)
    requires CanCreate(input, forceDelimiter, forceValueDelimiter)
    ensures input.Arr? ==> r == input.a
    ensures IsFalsy(input) ==> r == List([])
  {
    match input
    case Arr(a) => a
    case Null => List([])
    case Str(s) =>
      if Falsy(Some(s)) then List([])
      else
        var d := ChooseDelimiter(s, forceDelimiter);
        var vd := forceValueDelimiter;
        var hasValueDelim := vd in s;
        if d !in s then
          if hasValueDelim then
            var parts := Explode(vd, s);
            Hash([(Trim(parts[0]), Trim(parts[1]))])
          else List([s])
        else
          // d is `;` (or the forced delimiter) or `,`: CanCreate rules out `&`.
          Collect(if hasValueDelim then Hash([]) else List([]), Explode(d, s), hasValueDelim, vd)
  }

  // ---------------------------------------------------------------------
  // Reference definitions and the lemmas connecting them to the loop.

  /** The non-blank items, trimmed, in order. */
  function NonBlank(items: seq<string>): (r: seq<string>)
    ensures |r| <= |items|
  {
    if |items| == 0 then []
    else if Trim(items[0]) == "" then NonBlank(items[1..])
    else [Trim(items[0])] + NonBlank(items[1..])
  }

  /** What survives is trimmed and not blank. */
  lemma {:induction false} NonBlankTrimmed(items: seq<string>)
    ensures forall j :: 0 <= j < |NonBlank(items)| ==>
              NonBlank(items)[j] != "" && Trim(NonBlank(items)[j]) == NonBlank(items)[j]
  {
    if |items| > 0 {
      NonBlankTrimmed(items[1..]);
      TrimIdempotent(items[0]);
    }
  }

  /** A string survives exactly when it is the trimmed form of some
      non-blank item. */
  lemma {:induction false} NonBlankMember(items: seq<string>, x: string)
    ensures x in NonBlank(items) <==> exists i :: 0 <= i < |items| && x == Trim(items[i]) && x != ""
  {
    if |items| > 0 {
      var rest := items[1..];
      NonBlankMember(rest, x);
      assert forall i :: 0 <= i < |rest| ==> rest[i] == items[i + 1];
      if x in NonBlank(items) && x != Trim(items[0]) {
        assert x in NonBlank(rest);
        var i :| 0 <= i < |rest| && x == Trim(rest[i]) && x != "";
        assert x == Trim(items[i + 1]);
      }
      if exists i :: 0 <= i < |items| && x == Trim(items[i]) && x != "" {
        var i :| 0 <= i < |items| && x == Trim(items[i]) && x != "";
        if i > 0 {
          assert x == Trim(rest[i - 1]);
        }
      }
    }
  }

  /** Without a value delimiter the loop keeps the non-blank items, trimmed. */
  lemma {:induction false} CollectList(acc: seq<string>, items: seq<string>, vd: char)
    ensures Collect(List(acc), items, false, vd) == List(acc + NonBlank(items))
    decreases |items|
  {
    if |items| > 0 {
      var t := Trim(items[0]);
      var next := Step(List(acc), items[0], false, vd);
      assert Collect(List(acc), items, false, vd) == Collect(next, items[1..], false, vd);
      if t == "" {
        assert next == List(acc);
        assert NonBlank(items) == NonBlank(items[1..]);
        CollectList(acc, items[1..], vd);
      } else {
        assert next == List(acc + [t]);
        assert NonBlank(items) == [t] + NonBlank(items[1..]);
        CollectList(acc + [t], items[1..], vd);
        SeqAssoc(acc, [t], NonBlank(items[1..]));
      }
    }
  }

  /** The key/value pairs of the non-blank items, in order. */
  function Pairs(items: seq<string>, vd: char): seq<(string, string)>
    requires PairsWellDefined(items, vd)
  {
    if |items| == 0 then []
    else
      assert forall i :: 0 <= i < |items| - 1 ==> items[1..][i] == items[i + 1];
      var t := Trim(items[0]);
      if t == "" then Pairs(items[1..], vd) else [SplitPair(t, vd)] + Pairs(items[1..], vd)
  }

  /** The value of the last pair with key `k`, read from the back: the one a
      sequence of assignments leaves behind. */
  function LastValue(pairs: seq<(string, string)>, k: string): Option<string>
  {
    if |pairs| == 0 then None
    else
      var later := LastValue(pairs[1..], k);
      if later.Some? then later
      else if pairs[0].0 == k then Some(pairs[0].1)
      else None
  }

  /** `LastValue` finds the last pair with the key, or reports there is none. */
  lemma {:induction false} LastValueSpec(pairs: seq<(string, string)>, k: string)
    ensures LastValue(pairs, k).None? <==> forall i :: 0 <= i < |pairs| ==> pairs[i].0 != k
    ensures LastValue(pairs, k).Some? ==>
              exists i :: 0 <= i < |pairs| && pairs[i] == (k, LastValue(pairs, k).value) &&
                forall j :: i < j < |pairs| ==> pairs[j].0 != k
  {
    if |pairs| > 0 {
      var rest := pairs[1..];
      LastValueSpec(rest, k);
      assert forall i :: 0 <= i < |rest| ==> rest[i] == pairs[i + 1];
      var later := LastValue(rest, k);
      if later.Some? {
        var i :| 0 <= i < |rest| && rest[i] == (k, later.value) &&
                 forall j :: i < j < |rest| ==> rest[j].0 != k;
        assert pairs[i + 1] == (k, later.value);
        assert forall j :: i + 1 < j < |pairs| ==> pairs[j].0 != k;
      }
    }
  }

  /** The value of `k` after assigning `pairs` on top of `acc`, described
      without running the assignments: the last pair's value, or the old one. */
  function After(pairs: seq<(string, string)>, acc: seq<(string, string)>, k: string): Option<string>
  {
    match LastValue(pairs, k)
    case Some(v) => Some(v)
    case None => Lookup(acc, k)
  }

  /** One turn of the loop moves its item from the pairs into the accumulator. */
  lemma StepAfter(acc: seq<(string, string)>, items: seq<string>, vd: char, k: string)
    requires |items| > 0 && PairsWellDefined(items, vd)
    ensures PairsWellDefined(items[1..], vd)
    ensures After(Pairs(items, vd), acc, k) ==
            After(Pairs(items[1..], vd), Step(Hash(acc), items[0], true, vd).entries, k)
  {
    assert forall i :: 0 <= i < |items| - 1 ==> items[1..][i] == items[i + 1];
    var t := Trim(items[0]);
    if t != "" {
      var p := SplitPair(t, vd);
      var acc' := Assign(acc, p.0, p.1);
      var later := LastValue(Pairs(items[1..], vd), k);
      var ps := [p] + Pairs(items[1..], vd);
      assert Pairs(items, vd) == ps;
      assert ps[1..] == Pairs(items[1..], vd);
      assert LastValue(ps, k) == if later.Some? then later else if p.0 == k then Some(p.1) else None;
      assert Lookup(acc', k) == if k == p.0 then Some(p.1) else Lookup(acc, k);
    }
  }

  /** The loop in hash mode: every key ends with its last value, keys not
      among the pairs keep what the accumulator had. */
  lemma {:induction false} CollectHash(acc: seq<(string, string)>, items: seq<string>, vd: char, k: string)
    requires PairsWellDefined(items, vd)
    ensures Collect(Hash(acc), items, true, vd).Hash?
    ensures Lookup(Collect(Hash(acc), items, true, vd).entries, k) == After(Pairs(items, vd), acc, k)
    decreases |items|
  {
    if |items| > 0 {
      StepAfter(acc, items, vd, k);
      var next := Step(Hash(acc), items[0], true, vd);
      assert Collect(Hash(acc), items, true, vd) == Collect(next, items[1..], true, vd);
      CollectHash(next.entries, items[1..], vd, k);
    }
  }

  /** The loop in hash mode keeps keys distinct. */
  lemma {:induction false} CollectHashDistinct(acc: seq<(string, string)>, items: seq<string>, vd: char)
    requires PairsWellDefined(items, vd) && DistinctKeys(acc)
    ensures Collect(Hash(acc), items, true, vd).Hash?
    ensures DistinctKeys(Collect(Hash(acc), items, true, vd).entries)
    decreases |items|
  {
    if |items| > 0 {
      assert forall i :: 0 <= i < |items| - 1 ==> items[1..][i] == items[i + 1];
      var t := Trim(items[0]);
      var next := Step(Hash(acc), items[0], true, vd);
      assert Collect(Hash(acc), items, true, vd) == Collect(next, items[1..], true, vd);
      if t != "" {
        var p := SplitPair(t, vd);
        AssignDistinct(acc, p.0, p.1);
      }
      CollectHashDistinct(next.entries, items[1..], vd);
    }
  }

  // ---------------------------------------------------------------------
  // The four string cases.

  /** No delimiter and no `=`: the string itself, untrimmed, as the only item. */
  lemma SingleItem(s: string, force: char, vd: char)
    requires !Falsy(Some(s)) && ChooseDelimiter(s, force) !in s && vd !in s
    ensures CreateFromString(Str(s), force, vd) == List([s])
  {
  }

  /** No delimiter but an `=`: one entry, the trimmed texts around the first `=`
      (up to a second one, if any). */
  lemma SinglePair(s: string, force: char, vd: char)
    requires !Falsy(Some(s)) && ChooseDelimiter(s, force) !in s && vd in s
    ensures CreateFromString(Str(s), force, vd) == Hash([SplitPair(s, vd)])
  {
  }

  /** A delimiter and no `=`: the non-blank items, trimmed, in order. */
  lemma SplitList(s: string, force: char, vd: char)
    requires !Falsy(Some(s)) && !UsesParseStr(s, force)
    requires ChooseDelimiter(s, force) in s && vd !in s
    ensures CreateFromString(Str(s), force, vd) == List(NonBlank(Explode(ChooseDelimiter(s, force), s)))
  {
    var items := Explode(ChooseDelimiter(s, force), s);
    assert CanCreate(Str(s), force, vd);
    assert CreateFromString(Str(s), force, vd) == Collect(List([]), items, false, vd);
    CollectList([], items, vd);
    assert [] + NonBlank(items) == NonBlank(items);
  }

  /** A delimiter and an `=`: a hash with distinct keys in which every key
      holds the value of its last item. */
  lemma SplitHash(s: string, force: char, vd: char, k: string)
    requires !Falsy(Some(s)) && !UsesParseStr(s, force)
    requires ChooseDelimiter(s, force) in s && vd in s
    requires PairsWellDefined(Explode(ChooseDelimiter(s, force), s), vd)
    ensures var r := CreateFromString(Str(s), force, vd);
            && r.Hash?
            && DistinctKeys(r.entries)
            && Lookup(r.entries, k) == LastValue(Pairs(Explode(ChooseDelimiter(s, force), s), vd), k)
  {
    var items := Explode(ChooseDelimiter(s, force), s);
    CollectHash([], items, vd, k);
    CollectHashDistinct([], items, vd);
  }

  // ---------------------------------------------------------------------
  // The cases the unit tests exercise.

  lemma CommaParts(s: string)
    requires s == "one, two, three"
    ensures Explode(Comma, s) == ["one", " two", " three"]
  {
    var parts := ["one", " two", " three"];
    assert Join([Comma], parts[1..]) == " two, three";
    assert Join([Comma], parts) == s;
    ExplodeJoin(Comma, parts);
  }

  /** A string with no whitespace at either end is its own trim. */
  lemma TrimPlain(x: string)
    requires x != "" && !IsTrimmed(x[0]) && !IsTrimmed(x[|x| - 1])
    ensures Trim(x) == x
  {
  }

  /** A leading space goes. */
  lemma TrimSpace(x: string)
    ensures Trim([' '] + x) == Trim(x)
  {
    assert ([' '] + x)[1..] == x;
  }

  lemma CommaItems()
    ensures NonBlank(["one", " two", " three"]) == ["one", "two", "three"]
  {
    TrimPlain("one");
    TrimPlain("two");
    TrimPlain("three");
    TrimSpace("two");
    TrimSpace("three");
    assert [' '] + "two" == " two" && [' '] + "three" == " three";
    var items := ["one", " two", " three"];
    assert items[1..][1..] == [" three"];
    assert NonBlank(items[1..][1..]) == ["three"];
    assert NonBlank(items[1..]) == ["two", "three"];
  }

  /** "one, two, three" splits on the comma into three trimmed items. */
  lemma ExampleCommas(s: string)
    requires s == "one, two, three"
    ensures ';' !in s && '=' !in s && ChooseDelimiter(s, ';') == Comma
    ensures CreateFromString(Str(s)) == List(["one", "two", "three"])
  {
    assert ';' !in s && '=' !in s && Comma in s;
    CommaParts(s);
    SplitList(s, ';', '=');
    CommaItems();
  }
}
