/** Concrete query strings run through both scanners: the test cases of
    RequestUtilsTest, stated on the string handed to `parse_str`, and the
    corner cases of the two-state scan. Each is read through `Parse`, whose
    result is given as a literal. */
module QueryStringExamples {
  import opened QueryString

  /** Both scanners on `q`, from a literal decomposition `x` of `q`. */
  lemma ScanThroughParse(q: string, x: Query, toFix: seq<string>, out: string)
    requires WellFormed(x) && Unparse(x) == q
    requires Repeats({}, Names(x)) == toFix
    requires Unparse(Mark(x, toFix)) == out
    ensures QueryNames(q) == Names(x)
    ensures GetToFix(q) == toFix
    ensures FixQueryString(q) == out
  {
    ParseUnparse(x);
    GetToFixIsRepeats(q);
    RewriteIsMark(q, toFix);
  }

  /** The empty query string has nothing to fix and rewrites to itself. */
  lemma ExampleEmpty()
    ensures GetToFix("") == []
    ensures FixQueryString("") == ""
  {
  }

  const BasicQuery := Pair("name1", Continued("val1", Pair("name2", Final("val2"))))

  lemma BasicShape()
    ensures WellFormed(BasicQuery)
  {
  }

  lemma BasicText()
    ensures Unparse(BasicQuery) == "name1=val1&name2=val2"
  {
  }

  lemma BasicRepeats()
    ensures Repeats({}, Names(BasicQuery)) == []
  {
  }

  lemma BasicMarked()
    ensures Unparse(Mark(BasicQuery, [])) == "name1=val1&name2=val2"
  {
  }

  /** `name1=val1&name2=val2`: the basic test: distinct names are left alone. */
  lemma ExampleBasic()
    ensures GetToFix("name1=val1&name2=val2") == []
    ensures FixQueryString("name1=val1&name2=val2") == "name1=val1&name2=val2"
  {
    BasicShape();
    BasicText();
    BasicRepeats();
    BasicMarked();
    ScanThroughParse("name1=val1&name2=val2", BasicQuery, [], "name1=val1&name2=val2");
  }

  const CgiArrayQuery := Pair("name1", Continued("val1", Pair("arrVal", Continued("one", Pair("arrVal", Final("two"))))))

  lemma CgiArrayShape()
    ensures WellFormed(CgiArrayQuery)
  {
  }

  lemma CgiArrayText()
    ensures Unparse(CgiArrayQuery) == "name1=val1&arrVal=one&arrVal=two"
  {
  }

  lemma CgiArrayRepeats()
    ensures Repeats({}, Names(CgiArrayQuery)) == ["arrVal"]
  {
  }

  lemma CgiArrayMarked()
    ensures Unparse(Mark(CgiArrayQuery, ["arrVal"])) == "name1=val1&arrVal[]=one&arrVal[]=two"
  {
  }

  /** `name1=val1&arrVal=one&arrVal=two`: the CGI-array test: both pairs of a repeated name are marked. */
  lemma ExampleCgiArray()
    ensures GetToFix("name1=val1&arrVal=one&arrVal=two") == ["arrVal"]
    ensures FixQueryString("name1=val1&arrVal=one&arrVal=two") == "name1=val1&arrVal[]=one&arrVal[]=two"
  {
    CgiArrayShape();
    CgiArrayText();
    CgiArrayRepeats();
    CgiArrayMarked();
    ScanThroughParse("name1=val1&arrVal=one&arrVal=two", CgiArrayQuery, ["arrVal"], "name1=val1&arrVal[]=one&arrVal[]=two");
  }

  const ParamInDataQuery := Pair("name1", Continued("val1", Pair("arrVal", Continued("one", Pair("arrVal", Final("arrVal"))))))

  lemma ParamInDataShape()
    ensures WellFormed(ParamInDataQuery)
  {
  }

  lemma ParamInDataText()
    ensures Unparse(ParamInDataQuery) == "name1=val1&arrVal=one&arrVal=arrVal"
  {
  }

  lemma ParamInDataRepeats()
    ensures Repeats({}, Names(ParamInDataQuery)) == ["arrVal"]
  {
  }

  lemma ParamInDataMarked()
    ensures Unparse(Mark(ParamInDataQuery, ["arrVal"])) == "name1=val1&arrVal[]=one&arrVal[]=arrVal"
  {
  }

  /** `name1=val1&arrVal=one&arrVal=arrVal`: a value equal to a repeated name is copied, not marked. */
  lemma ExampleParamInData()
    ensures GetToFix("name1=val1&arrVal=one&arrVal=arrVal") == ["arrVal"]
    ensures FixQueryString("name1=val1&arrVal=one&arrVal=arrVal") == "name1=val1&arrVal[]=one&arrVal[]=arrVal"
  {
    ParamInDataShape();
    ParamInDataText();
    ParamInDataRepeats();
    ParamInDataMarked();
    ScanThroughParse("name1=val1&arrVal=one&arrVal=arrVal", ParamInDataQuery, ["arrVal"], "name1=val1&arrVal[]=one&arrVal[]=arrVal");
  }

  const ThreeTimesQuery := Pair("a", Continued("1", Pair("a", Continued("2", Pair("a", Final("3"))))))

  lemma ThreeTimesShape()
    ensures WellFormed(ThreeTimesQuery)
  {
  }

  lemma ThreeTimesText()
    ensures Unparse(ThreeTimesQuery) == "a=1&a=2&a=3"
  {
  }

  lemma ThreeTimesRepeats()
    ensures Repeats({}, Names(ThreeTimesQuery)) == ["a", "a"]
  {
  }

  lemma ThreeTimesMarked()
    ensures Unparse(Mark(ThreeTimesQuery, ["a", "a"])) == "a[]=1&a[]=2&a[]=3"
  {
  }

  /** `a=1&a=2&a=3`: a name ending three pairs is listed twice and marked three times. */
  lemma ExampleThreeTimes()
    ensures GetToFix("a=1&a=2&a=3") == ["a", "a"]
    ensures FixQueryString("a=1&a=2&a=3") == "a[]=1&a[]=2&a[]=3"
  {
    ThreeTimesShape();
    ThreeTimesText();
    ThreeTimesRepeats();
    ThreeTimesMarked();
    ScanThroughParse("a=1&a=2&a=3", ThreeTimesQuery, ["a", "a"], "a[]=1&a[]=2&a[]=3");
  }

  const AmpersandInNameQuery := Pair("foo&a", Final("1"))

  lemma AmpersandInNameShape()
    ensures WellFormed(AmpersandInNameQuery)
  {
  }

  lemma AmpersandInNameText()
    ensures Unparse(AmpersandInNameQuery) == "foo&a=1"
  {
  }

  lemma AmpersandInNameRepeats()
    ensures Repeats({}, Names(AmpersandInNameQuery)) == []
  {
  }

  lemma AmpersandInNameMarked()
    ensures Unparse(Mark(AmpersandInNameQuery, [])) == "foo&a=1"
  {
  }

  /** `foo&a=1`: an `&` before any `=` belongs to the name. */
  lemma ExampleAmpersandInName()
    ensures GetToFix("foo&a=1") == []
    ensures FixQueryString("foo&a=1") == "foo&a=1"
  {
    AmpersandInNameShape();
    AmpersandInNameText();
    AmpersandInNameRepeats();
    AmpersandInNameMarked();
    ScanThroughParse("foo&a=1", AmpersandInNameQuery, [], "foo&a=1");
  }

  const TrailingNameQuery := Pair("a", Continued("1", Pair("a", Continued("2", Fragment("b")))))

  lemma TrailingNameShape()
    ensures WellFormed(TrailingNameQuery)
  {
  }

  lemma TrailingNameText()
    ensures Unparse(TrailingNameQuery) == "a=1&a=2&b"
  {
  }

  lemma TrailingNameRepeats()
    ensures Repeats({}, Names(TrailingNameQuery)) == ["a"]
  {
  }

  lemma TrailingNameMarked()
    ensures Unparse(Mark(TrailingNameQuery, ["a"])) == "a[]=1&a[]=2&b"
  {
  }

  /** `a=1&a=2&b`: a final name with no `=` is flushed unchanged. */
  lemma ExampleTrailingName()
    ensures GetToFix("a=1&a=2&b") == ["a"]
    ensures FixQueryString("a=1&a=2&b") == "a[]=1&a[]=2&b"
  {
    TrailingNameShape();
    TrailingNameText();
    TrailingNameRepeats();
    TrailingNameMarked();
    ScanThroughParse("a=1&a=2&b", TrailingNameQuery, ["a"], "a[]=1&a[]=2&b");
  }

  const EqualsInValueQuery := Pair("a", Continued("x=a", Pair("a", Final("z"))))

  lemma EqualsInValueShape()
    ensures WellFormed(EqualsInValueQuery)
  {
  }

  lemma EqualsInValueText()
    ensures Unparse(EqualsInValueQuery) == "a=x=a&a=z"
  {
  }

  lemma EqualsInValueRepeats()
    ensures Repeats({}, Names(EqualsInValueQuery)) == ["a"]
  {
  }

  lemma EqualsInValueMarked()
    ensures Unparse(Mark(EqualsInValueQuery, ["a"])) == "a[]=x=a&a[]=z"
  {
  }

  /** `a=x=a&a=z`: only the first `=` of a pair ends its name. */
  lemma ExampleEqualsInValue()
    ensures GetToFix("a=x=a&a=z") == ["a"]
    ensures FixQueryString("a=x=a&a=z") == "a[]=x=a&a[]=z"
  {
    EqualsInValueShape();
    EqualsInValueText();
    EqualsInValueRepeats();
    EqualsInValueMarked();
    ScanThroughParse("a=x=a&a=z", EqualsInValueQuery, ["a"], "a[]=x=a&a[]=z");
  }
}
