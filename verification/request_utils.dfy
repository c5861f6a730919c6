/** The duplicate-parameter rewrite of `RequestUtils`: two single-pass,
    two-state scanners over a raw query string.

    - `GetToFix` collects the names that end more than one pair.
    - `Rewrite` copies the input, inserting `[]` just before the `=` that
      ends every pair whose name is to be fixed.

    The structured decoding of the result (`parse_str`) is not modelled;
    the properties are stated about the rewritten string instead, against
    `Parse`, a reference decomposition of a query string into pairs. */
module QueryString {
  import opened Php

  /** The two states shared by both scanners. */
  datatype State = LookingEquals | LookingAmpersand

  // ---------------------------------------------------------------------
  // Reference structure of a raw query string
  // ---------------------------------------------------------------------

  /** A query string read from the left: either a trailing fragment with no
      `=` (possibly empty), or a pair whose name ends at its first `=`. */
  datatype Query =
    | Fragment(text: string)
    | Pair(name: string, after: Value)

  /** What follows a name's `=`: a value running to the end of the input,
      or a value ended by `&` and followed by the rest of the query. */
  datatype Value =
    | Final(value: string)
    | Continued(value: string, rest: Query)

  /** Cut a query string at the first `=` (end of the name). */
  function Parse(q: string): Query
    decreases |q|
  {
    if '=' !in q then Fragment(q)
    else
      var i := IndexOf(q, '=');
      Pair(q[..i], ParseValue(q[i + 1..]))
  }

  /** Cut what follows a name's `=` at the first `&` (end of the value). */
  function ParseValue(s: string): Value
    decreases |s|
  {
    if '&' !in s then Final(s)
    else
      var j := IndexOf(s, '&');
      Continued(s[..j], Parse(s[j + 1..]))
  }

  function Unparse(q: Query): string
  {
    match q
    case Fragment(t) => t
    case Pair(n, a) => n + "=" + UnparseValue(a)
  }

  function UnparseValue(v: Value): string
  {
    match v
    case Final(x) => x
    case Continued(x, r) => x + "&" + Unparse(r)
  }

  /** Names hold no `=`, values hold no `&`, a trailing fragment holds no `=`. */
  predicate WellFormed(q: Query)
  {
    match q
    case Fragment(t) => '=' !in t
    case Pair(n, a) => '=' !in n && WellFormedValue(a)
  }

  predicate WellFormedValue(v: Value)
  {
    match v
    case Final(x) => '&' !in x
    case Continued(x, r) => '&' !in x && WellFormed(r)
  }

  /** The names of the pairs, left to right, one entry per pair. */
  function Names(q: Query): seq<string>
  {
    match q
    case Fragment(_) => []
    case Pair(n, a) => [n] + NamesAfter(a)
  }

  function NamesAfter(v: Value): seq<string>
  {
    match v
    case Final(_) => []
    case Continued(_, r) => Names(r)
  }

  /** The values of the pairs, left to right, one entry per pair. */
  function Values(q: Query): seq<string>
  {
    match q
    case Fragment(_) => []
    case Pair(_, a) => [a.value] + ValuesAfter(a)
  }

  function ValuesAfter(v: Value): seq<string>
  {
    match v
    case Final(_) => []
    case Continued(_, r) => Values(r)
  }

  /** The PHP array marker. */
  const Marker: string := "[]"

  /** The name as the rewrite emits it: with the marker iff it is to be fixed. */
  function MarkName(n: string, toFix: seq<string>): string
  {
    if n in toFix then n + Marker else n
  }

  /** The same query with the marker added to every name in `toFix`. */
  function Mark(q: Query, toFix: seq<string>): Query
  {
    match q
    case Fragment(t) => Fragment(t)
    case Pair(n, a) => Pair(MarkName(n, toFix), MarkValue(a, toFix))
  }

  function MarkValue(v: Value, toFix: seq<string>): Value
  {
    match v
    case Final(x) => Final(x)
    case Continued(x, r) => Continued(x, Mark(r, toFix))
  }

  /** Number of entries of `ns` that are in `toFix`. */
  function CountIn(ns: seq<string>, toFix: seq<string>): nat
  {
    if |ns| == 0 then 0 else (if ns[0] in toFix then 1 else 0) + CountIn(ns[1..], toFix)
  }

  /** The names of a query string. */
  function QueryNames(q: string): seq<string>
  {
    Names(Parse(q))
  }

  // ---------------------------------------------------------------------
  // getToFix
  // ---------------------------------------------------------------------

  /** getToFix's loop variables: state, name buffer, the names seen so far
      (the keys of `$seenNames`) and the list being built. */
  datatype FixScan = FixScan(state: State, buffer: string, seen: set<string>, toFix: seq<string>)

  /** One iteration of getToFix's loop. At `=` in the name state the name is
      recorded, and appended to the list if it was seen before; the buffer is
      not cleared there, but it is at the `&` that ends the value. */
  function FixStep(sc: FixScan, c: char): FixScan
  {
    if sc.state == LookingEquals then
      if c == '=' then
        FixScan(LookingAmpersand, sc.buffer, sc.seen + {sc.buffer},
                if sc.buffer in sc.seen then sc.toFix + [sc.buffer] else sc.toFix)
      else
        sc.(buffer := sc.buffer + [c])
    else if c == '&' then
      sc.(state := LookingEquals, buffer := [])
    else
      sc.(buffer := sc.buffer + [c])
  }

  function FixRun(sc: FixScan, s: string): FixScan
    decreases |s|
  {
    if |s| == 0 then sc else FixRun(FixStep(sc, s[0]), s[1..])
  }

  /** The names of `q` that end a second, third, ... pair, in order. */
  function GetToFix(q: string): seq<string>
  {
    FixRun(FixScan(LookingEquals, [], {}, []), q).toFix
  }

  /** Reference for getToFix over the list of names: every name already in
      `seen` is reported, and every name becomes seen. */
  function Repeats(seen: set<string>, ns: seq<string>): seq<string>
    decreases |ns|
  {
    if |ns| == 0 then []
    else (if ns[0] in seen then [ns[0]] else []) + Repeats(seen + {ns[0]}, ns[1..])
  }

  // ---------------------------------------------------------------------
  // The rewrite loop of getParametersFromQueryString
  // ---------------------------------------------------------------------

  /** The rewrite loop's variables: state, buffer and the output so far. */
  datatype RewriteScan = RewriteScan(state: State, buffer: string, out: string)

  /** One iteration of the rewrite loop: at the name's `=` the (possibly
      marked) name and `=` are emitted; at the value's `&` the buffered value
      and the `&` are emitted. */
  function RewriteStep(toFix: seq<string>, sc: RewriteScan, c: char): RewriteScan
  {
    if sc.state == LookingEquals then
      if c == '=' then
        RewriteScan(LookingAmpersand, [], sc.out + MarkName(sc.buffer, toFix) + "=")
      else
        sc.(buffer := sc.buffer + [c])
    else if c == '&' then
      RewriteScan(LookingEquals, [], sc.out + sc.buffer + [c])
    else
      sc.(buffer := sc.buffer + [c])
  }

  function RewriteRun(toFix: seq<string>, sc: RewriteScan, s: string): RewriteScan
    decreases |s|
  {
    if |s| == 0 then sc else RewriteRun(toFix, RewriteStep(toFix, sc, s[0]), s[1..])
  }

  /** The rewritten string: the loop's output followed by what is left in
      the buffer (a final value, or a final name with no `=`). */
  function Rewrite(q: string, toFix: seq<string>): string
  {
    var fin := RewriteRun(toFix, RewriteScan(LookingEquals, [], []), q);
    fin.out + fin.buffer
  }

  /** The string getParametersFromQueryString hands to `parse_str`. */
  function FixQueryString(q: string): string
  {
    Rewrite(q, GetToFix(q))
  }

  // ---------------------------------------------------------------------
  // Facts about the reference structure
  // ---------------------------------------------------------------------

  /** Parse only cuts: it reads a well-formed query, and emitting that query
      again gives back the input exactly. */
  lemma {:induction false} ParseSound(q: string)
    ensures WellFormed(Parse(q))
    ensures Unparse(Parse(q)) == q
    decreases |q|
  {
    if '=' in q {
      var i := IndexOf(q, '=');
      var name, s := q[..i], q[i + 1..];
      assert q == name + "=" + s by {
        assert q == q[..i] + [q[i]] + q[i + 1..];
      }
      assert Parse(q) == Pair(name, ParseValue(s));
      ParseValueSound(s);
    }
  }

  lemma {:induction false} ParseValueSound(s: string)
    ensures WellFormedValue(ParseValue(s))
    ensures UnparseValue(ParseValue(s)) == s
    decreases |s|
  {
    if '&' in s {
      var j := IndexOf(s, '&');
      var x, rest := s[..j], s[j + 1..];
      assert s == x + "&" + rest by {
        assert s == s[..j] + [s[j]] + s[j + 1..];
      }
      assert ParseValue(s) == Continued(x, Parse(rest));
      ParseSound(rest);
    }
  }

  /** A name with no `=` followed by `=` is a pair with that name. */
  lemma ParseAtEquals(b: string, s: string)
    requires '=' !in b
    ensures Parse(b + "=" + s) == Pair(b, ParseValue(s))
  {
    var q := b + "=" + s;
    IndexOfAfter(b, '=', s);
    assert q[..|b|] == b;
    assert q[|b| + 1..] == s;
  }

  /** A value with no `&` followed by `&` ends there. */
  lemma ParseValueAtAmpersand(x: string, s: string)
    requires '&' !in x
    ensures ParseValue(x + "&" + s) == Continued(x, Parse(s))
  {
    var v := x + "&" + s;
    IndexOfAfter(x, '&', s);
    assert v[..|x|] == x;
    assert v[|x| + 1..] == s;
  }

  /** An `&` at the front of a value ends it empty. */
  lemma ParseValueAtStart(s: string)
    ensures ParseValue("&" + s) == Continued([], Parse(s))
  {
    ParseValueAtAmpersand([], s);
    assert [] + "&" + s == "&" + s;
  }

  /** A character other than `&` at the front of a value belongs to it. */
  lemma ParseValueCons(c: char, s: string)
    requires c != '&'
    ensures ParseValue([c] + s) ==
            match ParseValue(s)
            case Final(x) => Final([c] + x)
            case Continued(x, r) => Continued([c] + x, r)
  {
    match ParseValue(s)
    case Final(x) =>
      assert '&' !in [c] + s;
    case Continued(x, r) =>
      ParseValueSound(s);
      var u := Unparse(r);
      assert s == x + "&" + u;
      ParseValueAtAmpersand(x, u);
      ParseValueConsAmpersand(c, x, u);
  }

  lemma ParseValueConsAmpersand(c: char, x: string, u: string)
    requires c != '&' && '&' !in x
    ensures ParseValue([c] + (x + "&" + u)) == Continued([c] + x, Parse(u))
  {
    assert [c] + (x + "&" + u) == ([c] + x) + "&" + u;
    ParseValueAtAmpersand([c] + x, u);
  }

  /** Parse is the only way to read a well-formed query back: it inverts
      Unparse, so the decomposition of a string into pairs is unique. */
  lemma {:induction false} ParseUnparse(q: Query)
    requires WellFormed(q)
    ensures Parse(Unparse(q)) == q
  {
    match q
    case Fragment(t) =>
    case Pair(n, a) =>
      ParseAtEquals(n, UnparseValue(a));
      ParseValueUnparse(a);
  }

  lemma {:induction false} ParseValueUnparse(v: Value)
    requires WellFormedValue(v)
    ensures ParseValue(UnparseValue(v)) == v
  {
    match v
    case Final(x) =>
    case Continued(x, r) =>
      ParseValueAtAmpersand(x, Unparse(r));
      ParseUnparse(r);
  }

  /** Marking keeps a query well formed: the marker holds no `=`. */
  lemma {:induction false} MarkWellFormed(q: Query, toFix: seq<string>)
    requires WellFormed(q)
    ensures WellFormed(Mark(q, toFix))
  {
    match q
    case Fragment(_) =>
    case Pair(n, a) =>
      assert '=' !in MarkName(n, toFix) by {
        if n in toFix {
          assert MarkName(n, toFix) == n + Marker;
        }
      }
      MarkValueWellFormed(a, toFix);
  }

  lemma {:induction false} MarkValueWellFormed(v: Value, toFix: seq<string>)
    requires WellFormedValue(v)
    ensures WellFormedValue(MarkValue(v, toFix))
  {
    match v
    case Final(_) =>
    case Continued(_, r) => MarkWellFormed(r, toFix);
  }

  /** Marking renames each pair and touches nothing else: same number of
      pairs, each name marked iff it is in `toFix`, every value unchanged. */
  lemma {:induction false} MarkNamesValues(q: Query, toFix: seq<string>)
    ensures |Names(Mark(q, toFix))| == |Names(q)|
    ensures forall k :: 0 <= k < |Names(q)| ==>
              Names(Mark(q, toFix))[k] == MarkName(Names(q)[k], toFix)
    ensures Values(Mark(q, toFix)) == Values(q)
  {
    match q
    case Fragment(_) =>
    case Pair(n, a) =>
      match a
      case Final(_) =>
      case Continued(_, r) => MarkNamesValues(r, toFix);
  }

  /** Each marker adds two characters. */
  lemma {:induction false} MarkLength(q: Query, toFix: seq<string>)
    ensures |Unparse(Mark(q, toFix))| == |Unparse(q)| + 2 * CountIn(Names(q), toFix)
  {
    match q
    case Fragment(_) =>
    case Pair(n, a) =>
      assert CountIn(Names(q), toFix) == (if n in toFix then 1 else 0) + CountIn(NamesAfter(a), toFix) by {
        assert Names(q)[1..] == NamesAfter(a);
      }
      match a
      case Final(_) =>
      case Continued(_, r) => MarkLength(r, toFix);
  }

  /** Marking with nothing to fix is the identity. */
  lemma {:induction false} MarkNothing(q: Query)
    ensures Mark(q, []) == q
  {
    match q
    case Fragment(_) =>
    case Pair(n, a) =>
      match a
      case Final(_) =>
      case Continued(_, r) => MarkNothing(r);
  }

  // ---------------------------------------------------------------------
  // getToFix agrees with the reference
  // ---------------------------------------------------------------------

  /** The names getToFix has yet to finalise from a given loop state. */
  function PendingNames(sc: FixScan, s: string): seq<string>
  {
    if sc.state == LookingEquals then QueryNames(sc.buffer + s) else NamesAfter(ParseValue(s))
  }

  /** getToFix at the `=` that ends a name. */
  lemma FixStepEquals(sc: FixScan, s: string)
    requires sc.state == LookingEquals && '=' !in sc.buffer
    ensures sc.toFix + Repeats(sc.seen, PendingNames(sc, "=" + s)) ==
            FixStep(sc, '=').toFix + Repeats(FixStep(sc, '=').seen, PendingNames(FixStep(sc, '='), s))
  {
    var b := sc.buffer;
    var ns := NamesAfter(ParseValue(s));
    var sc' := FixStep(sc, '=');
    var head := if b in sc.seen then [b] else [];
    PendingAtEquals(sc, s);
    RepeatsCons(sc.seen, b, ns);
    assert sc'.toFix == sc.toFix + head;
    assert sc'.seen == sc.seen + {b};
    assert PendingNames(sc', s) == ns;
    var r := Repeats(sc.seen + {b}, ns);
    SeqAssoc(sc.toFix, head, r);
  }

  lemma PendingAtEquals(sc: FixScan, s: string)
    requires sc.state == LookingEquals && '=' !in sc.buffer
    ensures PendingNames(sc, "=" + s) == [sc.buffer] + NamesAfter(ParseValue(s))
  {
    ParseAtEquals(sc.buffer, s);
    assert sc.buffer + ("=" + s) == sc.buffer + "=" + s;
  }

  lemma RepeatsCons(seen: set<string>, n: string, ns: seq<string>)
    ensures Repeats(seen, [n] + ns) == (if n in seen then [n] else []) + Repeats(seen + {n}, ns)
  {
    assert ([n] + ns)[1..] == ns;
  }

  /** getToFix on a character of a name. */
  lemma FixStepName(sc: FixScan, c: char, s: string)
    requires sc.state == LookingEquals && '=' !in sc.buffer && c != '='
    ensures PendingNames(sc, [c] + s) == PendingNames(FixStep(sc, c), s)
  {
    var sc' := FixStep(sc, c);
    assert sc' == sc.(buffer := sc.buffer + [c]);
    var q := sc.buffer + ([c] + s);
    assert q == sc'.buffer + s;
    assert PendingNames(sc, [c] + s) == QueryNames(q);
  }

  /** getToFix at the `&` that ends a value. */
  lemma FixStepAmpersand(sc: FixScan, s: string)
    requires sc.state == LookingAmpersand
    ensures PendingNames(sc, "&" + s) == PendingNames(FixStep(sc, '&'), s)
  {
    var sc' := FixStep(sc, '&');
    assert sc'.state == LookingEquals && sc'.buffer == [];
    ParseValueAtStart(s);
    assert sc'.buffer + s == s;
  }

  /** getToFix on a character of a value. */
  lemma FixStepValue(sc: FixScan, c: char, s: string)
    requires sc.state == LookingAmpersand && c != '&'
    ensures PendingNames(sc, [c] + s) == PendingNames(FixStep(sc, c), s)
  {
    ParseValueCons(c, s);
  }

  /** One iteration of getToFix keeps the names still to be finalised. */
  lemma FixStepPending(sc: FixScan, c: char, s: string)
    requires sc.state == LookingEquals ==> '=' !in sc.buffer
    ensures var sc' := FixStep(sc, c);
            && (sc'.state == LookingEquals ==> '=' !in sc'.buffer)
            && sc.toFix + Repeats(sc.seen, PendingNames(sc, [c] + s)) ==
               sc'.toFix + Repeats(sc'.seen, PendingNames(sc', s))
  {
    if sc.state == LookingEquals {
      if c == '=' {
        assert [c] + s == "=" + s;
        FixStepEquals(sc, s);
      } else {
        FixStepName(sc, c, s);
      }
    } else if c == '&' {
      assert [c] + s == "&" + s;
      FixStepAmpersand(sc, s);
    } else {
      FixStepValue(sc, c, s);
    }
  }

  /** Loop invariant of getToFix, over the rest `s` of the input. */
  lemma {:induction false} FixRunRepeats(sc: FixScan, s: string)
    requires sc.state == LookingEquals ==> '=' !in sc.buffer
    ensures FixRun(sc, s).toFix == sc.toFix + Repeats(sc.seen, PendingNames(sc, s))
    decreases |s|
  {
    if |s| == 0 {
      assert sc.buffer + s == sc.buffer;
    } else {
      assert s == [s[0]] + s[1..];
      FixStepPending(sc, s[0], s[1..]);
      FixRunRepeats(FixStep(sc, s[0]), s[1..]);
    }
  }

  /** getToFix is the repeats of the query's names. */
  lemma GetToFixIsRepeats(q: string)
    ensures GetToFix(q) == Repeats({}, QueryNames(q))
  {
    var sc := FixScan(LookingEquals, [], {}, []);
    FixRunRepeats(sc, q);
    assert sc.buffer + q == q;
  }

  /** Repeats reports a name once per occurrence after its first, counting
      the occurrences already in `seen` as earlier ones. */
  lemma {:induction false} RepeatsCount(seen: set<string>, ns: seq<string>, x: string)
    ensures Count(Repeats(seen, ns), x) ==
            if x in seen then Count(ns, x)
            else if Count(ns, x) == 0 then 0
            else Count(ns, x) - 1
    decreases |ns|
  {
    if |ns| > 0 {
      var head := if ns[0] in seen then [ns[0]] else [];
      var tail := Repeats(seen + {ns[0]}, ns[1..]);
      CountAppend(head, tail, x);
      RepeatsCount(seen + {ns[0]}, ns[1..], x);
    }
  }

  /** A name occurring k >= 1 times in the pairs of `q` is listed k - 1 times:
      the first occurrence only marks it as seen, and repeats are not merged. */
  lemma GetToFixCount(q: string, x: string)
    ensures Count(GetToFix(q), x) ==
            if Count(QueryNames(q), x) == 0 then 0 else Count(QueryNames(q), x) - 1
  {
    GetToFixIsRepeats(q);
    RepeatsCount({}, QueryNames(q), x);
  }

  /** getToFix lists a name iff that name ends two or more pairs. */
  lemma GetToFixMember(q: string, x: string)
    ensures x in GetToFix(q) <==> Count(QueryNames(q), x) >= 2
  {
    GetToFixCount(q, x);
    CountPositive(GetToFix(q), x);
  }

  // ---------------------------------------------------------------------
  // The rewrite agrees with the reference
  // ---------------------------------------------------------------------

  /** The text the rewrite has yet to emit from a given loop state. */
  function PendingText(toFix: seq<string>, sc: RewriteScan, s: string): string
  {
    if sc.state == LookingEquals then Unparse(Mark(Parse(sc.buffer + s), toFix))
    else sc.buffer + UnparseValue(MarkValue(ParseValue(s), toFix))
  }

  /** The text still to emit from the name state, at the `=` ending the name. */
  lemma PendingTextAtEquals(toFix: seq<string>, sc: RewriteScan, s: string)
    requires sc.state == LookingEquals && '=' !in sc.buffer
    ensures PendingText(toFix, sc, "=" + s) ==
            MarkName(sc.buffer, toFix) + "=" + UnparseValue(MarkValue(ParseValue(s), toFix))
  {
    var b := sc.buffer;
    var q := b + ("=" + s);
    assert q == b + "=" + s;
    ParseAtEquals(b, s);
    assert Parse(q) == Pair(b, ParseValue(s));
    assert PendingText(toFix, sc, "=" + s) == Unparse(Mark(Parse(q), toFix));
  }

  /** The rewrite at the `=` that ends a name. */
  lemma RewriteStepEquals(toFix: seq<string>, sc: RewriteScan, s: string)
    requires sc.state == LookingEquals && '=' !in sc.buffer
    ensures sc.out + PendingText(toFix, sc, "=" + s) ==
            RewriteStep(toFix, sc, '=').out + PendingText(toFix, RewriteStep(toFix, sc, '='), s)
  {
    var m := MarkName(sc.buffer, toFix);
    var rest := UnparseValue(MarkValue(ParseValue(s), toFix));
    var sc' := RewriteStep(toFix, sc, '=');
    PendingTextAtEquals(toFix, sc, s);
    assert sc' == RewriteScan(LookingAmpersand, [], sc.out + m + "=");
    assert PendingText(toFix, sc', s) == [] + rest;
    assert [] + rest == rest;
    SeqAssoc(sc.out, m + "=", rest);
    SeqAssoc(sc.out, m, "=");
  }

  /** The rewrite on a character of a name. */
  lemma RewriteStepName(toFix: seq<string>, sc: RewriteScan, c: char, s: string)
    requires sc.state == LookingEquals && '=' !in sc.buffer && c != '='
    ensures PendingText(toFix, sc, [c] + s) == PendingText(toFix, RewriteStep(toFix, sc, c), s)
  {
    var sc' := RewriteStep(toFix, sc, c);
    assert sc' == sc.(buffer := sc.buffer + [c]);
    var q := sc.buffer + ([c] + s);
    assert q == sc'.buffer + s;
    assert PendingText(toFix, sc, [c] + s) == Unparse(Mark(Parse(q), toFix));
  }

  /** The rewrite at the `&` that ends a value. */
  lemma RewriteStepAmpersand(toFix: seq<string>, sc: RewriteScan, s: string)
    requires sc.state == LookingAmpersand
    ensures sc.out + PendingText(toFix, sc, "&" + s) ==
            RewriteStep(toFix, sc, '&').out + PendingText(toFix, RewriteStep(toFix, sc, '&'), s)
  {
    var rest := Unparse(Mark(Parse(s), toFix));
    var sc' := RewriteStep(toFix, sc, '&');
    assert sc' == RewriteScan(LookingEquals, [], sc.out + sc.buffer + "&");
    ParseValueAtStart(s);
    assert UnparseValue(MarkValue(Continued([], Parse(s)), toFix)) == [] + "&" + rest;
    assert [] + "&" + rest == "&" + rest;
    assert PendingText(toFix, sc, "&" + s) == sc.buffer + ("&" + rest);
    assert sc'.buffer + s == s;
    assert PendingText(toFix, sc', s) == rest;
    SeqAssoc(sc.out, sc.buffer, "&" + rest);
    SeqAssoc(sc.out + sc.buffer, "&", rest);
  }

  /** The rewrite on a character of a value. */
  lemma RewriteStepValue(toFix: seq<string>, sc: RewriteScan, c: char, s: string)
    requires sc.state == LookingAmpersand && c != '&'
    ensures PendingText(toFix, sc, [c] + s) == PendingText(toFix, RewriteStep(toFix, sc, c), s)
  {
    ParseValueCons(c, s);
    match ParseValue(s)
    case Final(x) =>
      SeqAssoc(sc.buffer, [c], x);
    case Continued(x, r) =>
      var tail := "&" + Unparse(Mark(r, toFix));
      assert UnparseValue(MarkValue(ParseValue([c] + s), toFix)) == ([c] + x) + tail by {
        SeqAssoc([c] + x, "&", Unparse(Mark(r, toFix)));
      }
      assert UnparseValue(MarkValue(ParseValue(s), toFix)) == x + tail by {
        SeqAssoc(x, "&", Unparse(Mark(r, toFix)));
      }
      SeqAssoc([c], x, tail);
      SeqAssoc(sc.buffer, [c], x + tail);
  }

  /** One iteration of the rewrite keeps output plus text still to emit. */
  lemma RewriteStepPending(toFix: seq<string>, sc: RewriteScan, c: char, s: string)
    requires sc.state == LookingEquals ==> '=' !in sc.buffer
    ensures var sc' := RewriteStep(toFix, sc, c);
            && (sc'.state == LookingEquals ==> '=' !in sc'.buffer)
            && sc.out + PendingText(toFix, sc, [c] + s) == sc'.out + PendingText(toFix, sc', s)
  {
    if sc.state == LookingEquals {
      if c == '=' {
        assert [c] + s == "=" + s;
        RewriteStepEquals(toFix, sc, s);
      } else {
        RewriteStepName(toFix, sc, c, s);
      }
    } else if c == '&' {
      assert [c] + s == "&" + s;
      RewriteStepAmpersand(toFix, sc, s);
    } else {
      RewriteStepValue(toFix, sc, c, s);
    }
  }

  /** Loop invariant of the rewrite, over the rest `s` of the input. */
  lemma {:induction false} RewriteRunText(toFix: seq<string>, sc: RewriteScan, s: string)
    requires sc.state == LookingEquals ==> '=' !in sc.buffer
    ensures var fin := RewriteRun(toFix, sc, s);
            fin.out + fin.buffer == sc.out + PendingText(toFix, sc, s)
    decreases |s|
  {
    if |s| == 0 {
      assert sc.buffer + s == sc.buffer;
    } else {
      assert s == [s[0]] + s[1..];
      RewriteStepPending(toFix, sc, s[0], s[1..]);
      RewriteRunText(toFix, RewriteStep(toFix, sc, s[0]), s[1..]);
    }
  }

  /** The rewrite re-emits the query's pairs with the names in `toFix` marked. */
  lemma RewriteIsMark(q: string, toFix: seq<string>)
    ensures Rewrite(q, toFix) == Unparse(Mark(Parse(q), toFix))
  {
    var sc := RewriteScan(LookingEquals, [], []);
    RewriteRunText(toFix, sc, q);
    assert sc.buffer + q == q;
  }

  /** Reading the rewritten string gives the input's pairs, in order, with
      every name in `toFix` marked and every value and the trailing fragment
      exactly as in the input. */
  lemma RewriteStructure(q: string, toFix: seq<string>)
    ensures Parse(Rewrite(q, toFix)) == Mark(Parse(q), toFix)
    ensures |QueryNames(Rewrite(q, toFix))| == |QueryNames(q)|
    ensures forall k :: 0 <= k < |QueryNames(q)| ==>
              QueryNames(Rewrite(q, toFix))[k] == MarkName(QueryNames(q)[k], toFix)
    ensures Values(Parse(Rewrite(q, toFix))) == Values(Parse(q))
  {
    RewriteIsMark(q, toFix);
    ParseSound(q);
    MarkWellFormed(Parse(q), toFix);
    ParseUnparse(Mark(Parse(q), toFix));
    MarkNamesValues(Parse(q), toFix);
  }

  /** With nothing to fix the rewrite is the identity, so a query in which
      no name ends two pairs reaches `parse_str` unchanged. */
  lemma RewriteNothingToFix(q: string)
    ensures Rewrite(q, []) == q
    ensures (forall k :: 0 <= k < |QueryNames(q)| ==> Count(QueryNames(q), QueryNames(q)[k]) < 2) ==>
              FixQueryString(q) == q
  {
    RewriteIsMark(q, []);
    MarkNothing(Parse(q));
    ParseSound(q);
    if GetToFix(q) != [] {
      var x := GetToFix(q)[0];
      GetToFixMember(q, x);
      CountPositive(QueryNames(q), x);
      var k :| 0 <= k < |QueryNames(q)| && QueryNames(q)[k] == x;
    }
  }

  /** The output is the input plus two characters per marked pair. */
  lemma RewriteLength(q: string, toFix: seq<string>)
    ensures |Rewrite(q, toFix)| == |q| + 2 * CountIn(QueryNames(q), toFix)
  {
    RewriteIsMark(q, toFix);
    MarkLength(Parse(q), toFix);
    ParseSound(q);
  }

  /** End to end: in the string handed to `parse_str` the pairs and values
      are the input's, and a pair's name carries the marker iff that name
      ends two or more pairs of the input, its first pair included. */
  lemma FixQueryStringMarksRepeatedNames(q: string)
    ensures Parse(FixQueryString(q)) == Mark(Parse(q), GetToFix(q))
    ensures |QueryNames(FixQueryString(q))| == |QueryNames(q)|
    ensures forall k :: 0 <= k < |QueryNames(q)| ==>
              QueryNames(FixQueryString(q))[k] ==
              QueryNames(q)[k] + (if Count(QueryNames(q), QueryNames(q)[k]) >= 2 then Marker else "")
    ensures Values(Parse(FixQueryString(q))) == Values(Parse(q))
  {
    RewriteStructure(q, GetToFix(q));
    forall k | 0 <= k < |QueryNames(q)|
      ensures QueryNames(FixQueryString(q))[k] ==
              QueryNames(q)[k] + (if Count(QueryNames(q), QueryNames(q)[k]) >= 2 then Marker else "")
    {
      GetToFixMember(q, QueryNames(q)[k]);
    }
  }
}
