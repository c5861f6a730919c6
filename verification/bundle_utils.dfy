/** `BundleUtils::getBundleName` for a class-name string: the first
    namespace segment ending in "Bundle", with that suffix removed. */
module BundleUtils {
  import opened Php
  import ZanString

  const BundleSuffix: string := "Bundle"

  /** The namespace separator. */
  const Separator: char := '\\'

  /** No segment passes the case-sensitive `str_ends_with($part, 'Bundle')`. */
  predicate NoBundleSegment(parts: seq<string>)
  {
    forall k :: 0 <= k < |parts| ==> !IsSuffix(BundleSuffix, parts[k])
  }

  /** The foreach over the segments: the first one passing the
      case-sensitive `str_ends_with` test goes through removePostfix. */
  function FirstBundle(parts: seq<string>): (r: Option<string>)
    ensures r.None? <==> NoBundleSegment(parts)
  {
    if |parts| == 0 then None
    else if IsSuffix(BundleSuffix, parts[0]) then
      ZanString.EndsWithIsSuffix(Some(parts[0]), Some(BundleSuffix));
      ZanString.RemovePostfix(Some(parts[0]), Some(BundleSuffix))
    else
      var r := FirstBundle(parts[1..]);
      assert forall k :: 1 <= k < |parts| ==> parts[k] == parts[1..][k - 1];
      r
  }

  function GetBundleName(className: string): Option<string>
  {
    FirstBundle(Explode(Separator, className))
  }

  /** The first segment ending in "Bundle" decides: earlier segments do not
      end in it, later ones are not looked at. */
  lemma {:induction false} FirstBundleAt(parts: seq<string>, k: nat)
    requires k < |parts| && IsSuffix(BundleSuffix, parts[k])
    requires forall j :: 0 <= j < k ==> !IsSuffix(BundleSuffix, parts[j])
    ensures FirstBundle(parts) == Some(parts[k][..|parts[k]| - |BundleSuffix|])
  {
    if k == 0 {
      ZanString.EndsWithIsSuffix(Some(parts[0]), Some(BundleSuffix));
    } else {
      FirstBundleAt(parts[1..], k - 1);
    }
  }

  /** A found name followed by "Bundle" is one of the segments. */
  lemma {:induction false} FirstBundleSegment(parts: seq<string>)
    ensures FirstBundle(parts).Some? ==>
            exists k :: 0 <= k < |parts| && parts[k] == FirstBundle(parts).value + BundleSuffix
  {
    if |parts| > 0 {
      if IsSuffix(BundleSuffix, parts[0]) {
        ZanString.EndsWithIsSuffix(Some(parts[0]), Some(BundleSuffix));
        assert parts[0] == FirstBundle(parts).value + BundleSuffix;
      } else {
        FirstBundleSegment(parts[1..]);
        if FirstBundle(parts).Some? {
          var k :| 0 <= k < |parts[1..]| && parts[1..][k] == FirstBundle(parts[1..]).value + BundleSuffix;
          assert parts[k + 1] == FirstBundle(parts).value + BundleSuffix;
        }
      }
    }
  }

  /** getBundleName: null iff no segment ends in "Bundle"; otherwise the
      first such segment without its suffix, which is one of the segments
      once "Bundle" is put back. */
  lemma GetBundleNameSpec(className: string)
    ensures var parts := Explode(Separator, className);
            && (GetBundleName(className).None? <==> NoBundleSegment(parts))
            && (GetBundleName(className).Some? ==>
                  exists k :: 0 <= k < |parts| && parts[k] == GetBundleName(className).value + BundleSuffix)
  {
    FirstBundleSegment(Explode(Separator, className));
  }

  /** getBundleName of a class name given as the join of its segments,
      the first one ending in "Bundle" being segment `k`. */
  lemma BundleNameOf(className: string, parts: seq<string>, k: nat, name: string)
    requires |parts| >= 1 && Join([Separator], parts) == className
    requires forall j :: 0 <= j < |parts| ==> Separator !in parts[j]
    requires k < |parts| && parts[k] == name + BundleSuffix
    requires forall j :: 0 <= j < k ==> !IsSuffix(BundleSuffix, parts[j])
    ensures GetBundleName(className) == Some(name)
  {
    ExplodeJoin(Separator, parts);
    assert IsSuffix(BundleSuffix, parts[k]) && parts[k][..|name|] == name;
    FirstBundleAt(parts, k);
  }

  /** getBundleName of a class name none of whose segments ends in "Bundle". */
  lemma NoBundleNameOf(className: string, parts: seq<string>)
    requires |parts| >= 1 && Join([Separator], parts) == className
    requires forall j :: 0 <= j < |parts| ==> Separator !in parts[j]
    requires forall j :: 0 <= j < |parts| ==> !IsSuffix(BundleSuffix, parts[j])
    ensures GetBundleName(className) == None
  {
    ExplodeJoin(Separator, parts);
  }

  /** Joining a head onto a non-empty rest puts one separator between them. */
  lemma JoinCons(head: string, rest: seq<string>)
    requires |rest| >= 1
    ensures Join([Separator], [head] + rest) == head + [Separator] + Join([Separator], rest)
  {
    assert ([head] + rest)[1..] == rest;
  }

  lemma EntityOrderJoin()
    ensures Join([Separator], ["Entity", "Order"]) == "Entity\\Order"
  {
    JoinCons("Entity", ["Order"]);
  }

  lemma ProductEntityOrderJoin()
    ensures Join([Separator], ["SomeProductBundle", "Entity", "Order"]) == "SomeProductBundle\\Entity\\Order"
  {
    EntityOrderJoin();
    JoinCons("SomeProductBundle", ["Entity", "Order"]);
  }

  lemma SomeProductJoin()
    ensures Join([Separator], ["Corp", "SomeProductBundle", "Entity", "Order"]) ==
            "Corp\\SomeProductBundle\\Entity\\Order"
  {
    ProductEntityOrderJoin();
    JoinCons("Corp", ["SomeProductBundle", "Entity", "Order"]);
  }

  /** The documented example: Corp\SomeProductBundle\Entity\Order gives SomeProduct. */
  lemma ExampleSomeProduct(className: string)
    requires className == "Corp\\SomeProductBundle\\Entity\\Order"
    ensures GetBundleName(className) == Some("SomeProduct")
  {
    SomeProductJoin();
    BundleNameOf(className, ["Corp", "SomeProductBundle", "Entity", "Order"], 1, "SomeProduct");
  }

  /** A segment that is exactly "Bundle" gives the empty name, although the
      doc comment speaks of parts that merely include "bundle". */
  lemma ExampleBareBundle(className: string)
    requires className == "Corp\\Bundle\\Order"
    ensures GetBundleName(className) == Some("")
  {
    assert Join([Separator], ["Bundle", "Order"]) == "Bundle\\Order";
    BundleNameOf(className, ["Corp", "Bundle", "Order"], 1, "");
  }

  /** The suffix test is case-sensitive: "bundle" does not count. */
  lemma ExampleLowerCase(className: string)
    requires className == "Corp\\Somebundle\\Order"
    ensures GetBundleName(className) == None
  {
    assert Join([Separator], ["Somebundle", "Order"]) == "Somebundle\\Order";
    NoBundleNameOf(className, ["Corp", "Somebundle", "Order"]);
  }
}
