/** The table tests of the alias builder, stated as lemmas about the model, and two
    inputs that show what the code does not promise. Inputs are passed as parameters
    equal to the test's literal. */
module AliasExamples {
  import opened Optional
  import opened Text
  import opened Decimal
  import opened Semver
  import opened LexOrder
  import opened Aliases

  lemma SmallNumerals()
    ensures FormatInt(0) == "0" && FormatInt(1) == "1" && FormatInt(2) == "2"
  {
    assert DigitChar(1) == '1';
  }

  lemma FromVersionEmpty(s: string)
    requires s == ""
    ensures AliasesOf(s) == []
  {
  }

  /** "1.0" has two components, not three, so it is not a version. */
  lemma FromVersionInvalid(s: string)
    requires s == "1.0"
    ensures AliasesOf(s) == []
  {
    TrimSpaceUnchanged(s);
    assert Normalize(s) == s;
    assert s == "1" + ['.'] + "0";
    assert Cut(s, '+') == (s, None) && Cut(s, '-') == (s, None);
    CutAt("1", '.', "0");
    assert Split(s, '.') == ["1", "0"];
  }

  lemma OneTwoZero()
    ensures Format(Version(1, 2, 0, "", "")) == "1.2.0"
    ensures FormatInt(1) + "." + FormatInt(2) == "1.2"
    ensures FormatInt(1) + "." + FormatInt(2) + "." + FormatInt(0) == "1.2.0"
  {
    SmallNumerals();
  }

  lemma FromVersionRelease(s: string)
    requires s == "v1.2.0"
    ensures AliasesOf(s) == ["1", "1.2", "1.2.0"]
  {
    OneTwoZero();
    TrimSpaceUnchanged(s);
    AliasesOfRelease(s, Version(1, 2, 0, "", ""));
    SmallNumerals();
  }

  lemma ZeroOneZero()
    ensures Format(Version(0, 1, 0, "", "")) == "0.1.0"
    ensures FormatInt(0) + "." + FormatInt(1) == "0.1"
    ensures FormatInt(0) + "." + FormatInt(1) + "." + FormatInt(0) == "0.1.0"
  {
    SmallNumerals();
  }

  lemma FromVersionReleaseUnprefixed(s: string)
    requires s == "0.1.0"
    ensures AliasesOf(s) == ["0", "0.1", "0.1.0"]
  {
    ZeroOneZero();
    TrimSpaceUnchanged(s);
    AliasesOfRelease(s, Version(0, 1, 0, "", ""));
    SmallNumerals();
  }

  /** "beta.N" is a valid pre-release: two identifiers, the numeric one a single digit. */
  lemma BetaPreRelease(p: string, n: string)
    requires p == "beta." + n && (n == "0" || n == "1")
    ensures IsPreRelease(p)
  {
    assert p == "beta" + ['.'] + n;
    CutAt("beta", '.', n);
    assert Split(n, '.') == [n];
    assert Split(p, '.') == ["beta", n];
  }

  /** A valid pre-release written without surrounding space, with or without a
      leading 'v', has its text as its only alias. */
  lemma PreReleaseExample(s: string, v: Version)
    requires Valid(v) && v.preRelease != "" && (s == Format(v) || s == "v" + Format(v))
    requires !IsSpace(s[0]) && !IsSpace(s[|s| - 1])
    ensures AliasesOf(s) == [Format(v)]
  {
    TrimSpaceUnchanged(s);
    AliasesOfPreRelease(s, v);
  }

  lemma OneZeroZeroBeta()
    ensures Valid(Version(1, 0, 0, "beta.1", ""))
    ensures Format(Version(1, 0, 0, "beta.1", "")) == "1.0.0-beta.1"
  {
    SmallNumerals();
    BetaPreRelease("beta.1", "1");
  }

  lemma FromVersionPreRelease(s: string)
    requires s == "1.0.0-beta.1"
    ensures AliasesOf(s) == ["1.0.0-beta.1"]
  {
    OneZeroZeroBeta();
    PreReleaseExample(s, Version(1, 0, 0, "beta.1", ""));
  }

  lemma OneTwoZeroBeta()
    ensures Valid(Version(1, 2, 0, "beta.0", ""))
    ensures Format(Version(1, 2, 0, "beta.0", "")) == "1.2.0-beta.0"
  {
    SmallNumerals();
    BetaPreRelease("beta.0", "0");
  }

  lemma FromVersionPreReleasePrefixed(s: string)
    requires s == "v1.2.0-beta.0"
    ensures AliasesOf(s) == ["1.2.0-beta.0"]
  {
    OneTwoZeroBeta();
    PreReleaseExample(s, Version(1, 2, 0, "beta.0", ""));
  }

  /** A one-entry list filters to that entry's normalised text, if it survives. */
  lemma FilteredSingle(x: string)
    ensures Filtered([x]) == if Survives(x) then [Normalize(x)] else []
  {
    FilterMapSingle(x, Entry);
    EntryIs(x);
  }

  /** Filtering a three-entry list, entry by entry. */
  lemma FilteredThree(a: string, b: string, c: string)
    ensures Filtered([a, b, c]) == Filtered([a]) + Filtered([b]) + Filtered([c])
  {
    FilteredAppend([a], [b]);
    FilteredAppend([a, b], [c]);
    assert [a] + [b] == [a, b] && [a, b] + [c] == [a, b, c];
  }

  /** The filter keeps input order and drops blank entries. */
  lemma FilterKeepsOrder(tags: seq<string>)
    requires tags == ["5.4.0", "", "v20.8.7"]
    ensures Filtered(tags) == ["5.4.0", "20.8.7"]
  {
    FilteredPlain(tags[0]);
    FilteredSingle(tags[1]);
    FilteredPlain(tags[2]);
    FilteredThree(tags[0], tags[1], tags[2]);
  }

  /** No entries, or only blank ones, filter to nothing. */
  lemma FilterBlank(tags: seq<string>)
    requires tags == [] || tags == ["", "", ""]
    ensures Filtered(tags) == []
  {
    FilteredEmpty(tags);
  }

  /** When `want` is ascending and holds exactly the filtered entries, it is the
      one list that meets the specification. */
  lemma TagNamesAre(tags: seq<string>, r: seq<string>, want: seq<string>)
    requires IsTagAliases(tags, r)
    requires forall k :: 0 < k < |want| ==> Less(want[k - 1], want[k])
    requires forall x :: x in want <==> x in Filtered(tags)
    ensures r == want
  {
    IncreasingAdjacent(want);
    TagAliasesUnique(tags, r, want);
  }

  /** The expected results of the list tests, each in ascending byte order. */
  lemma Ascending(want: seq<string>)
    requires want == ["1.7.9", "5.8.7"] || want == ["10.18.3", "2.38.1", "6.32.2"]
          || want == ["20.8.7", "5.4.0"] || want == ["1.5.8", "1.8.5"]
          || want == ["10.0.22", "10.22.0", "2", "2.0", "2.0.1", "latest"]
    ensures forall k :: 0 < k < |want| ==> Less(want[k - 1], want[k])
  {
  }

  /** No entries, or only blank ones, give no aliases. */
  lemma TagNamesBlank(tags: seq<string>, r: seq<string>)
    requires tags == [] || tags == ["", "", ""]
    requires IsTagAliases(tags, r)
    ensures r == []
  {
    FilterBlank(tags);
    TagNamesAre(tags, r, []);
  }

  /** A single entry without surrounding space gives itself, minus one 'v'. */
  lemma TagNamesSingle(tags: seq<string>, r: seq<string>)
    requires tags == ["1.0.0"] || tags == ["v2.5.1"]
    requires IsTagAliases(tags, r)
    ensures r == (if tags == ["1.0.0"] then ["1.0.0"] else ["2.5.1"])
  {
    FilteredPlain(tags[0]);
    TagNamesAre(tags, r, [TrimPrefix(tags[0], "v")]);
  }

  lemma TwoPrefixedFiltered(tags: seq<string>)
    requires tags == ["v5.8.7", "v1.7.9"]
    ensures Filtered(tags) == ["5.8.7", "1.7.9"]
  {
    FilteredPlain(tags[0]);
    FilteredPlain(tags[1]);
    FilteredAppend([tags[0]], [tags[1]]);
    assert [tags[0]] + [tags[1]] == tags;
  }

  lemma TagNamesTwoPrefixed(tags: seq<string>, r: seq<string>)
    requires tags == ["v5.8.7", "v1.7.9"]
    requires IsTagAliases(tags, r)
    ensures r == ["1.7.9", "5.8.7"]
  {
    TwoPrefixedFiltered(tags);
    Ascending(["1.7.9", "5.8.7"]);
    TagNamesAre(tags, r, ["1.7.9", "5.8.7"]);
  }

  lemma LexicographicFiltered(tags: seq<string>)
    requires tags == ["v2.38.1", "v10.18.3", "v6.32.2"]
    ensures Filtered(tags) == ["2.38.1", "10.18.3", "6.32.2"]
  {
    FilteredPlain(tags[0]);
    FilteredPlain(tags[1]);
    FilteredPlain(tags[2]);
    FilteredThree(tags[0], tags[1], tags[2]);
  }

  /** Order is by bytes, not by version number: "10.18.3" comes before "2.38.1". */
  lemma TagNamesLexicographic(tags: seq<string>, r: seq<string>)
    requires tags == ["v2.38.1", "v10.18.3", "v6.32.2"]
    requires IsTagAliases(tags, r)
    ensures r == ["10.18.3", "2.38.1", "6.32.2"]
  {
    LexicographicFiltered(tags);
    Ascending(["10.18.3", "2.38.1", "6.32.2"]);
    TagNamesAre(tags, r, ["10.18.3", "2.38.1", "6.32.2"]);
  }

  /** Blank entries are dropped before sorting. */
  lemma TagNamesMixedEmpty(tags: seq<string>, r: seq<string>)
    requires tags == ["5.4.0", "", "v20.8.7"]
    requires IsTagAliases(tags, r)
    ensures r == ["20.8.7", "5.4.0"]
  {
    FilterKeepsOrder(tags);
    Ascending(["20.8.7", "5.4.0"]);
    TagNamesAre(tags, r, ["20.8.7", "5.4.0"]);
  }

  lemma DeduplicatedFiltered(tags: seq<string>)
    requires tags == ["v1.5.8", "1.8.5", "v1.5.8"]
    ensures Filtered(tags) == ["1.5.8", "1.8.5", "1.5.8"]
  {
    FilteredPlain(tags[0]);
    FilteredPlain(tags[1]);
    FilteredThree(tags[0], tags[1], tags[2]);
  }

  /** Duplicates, with or without the 'v', collapse to one. */
  lemma TagNamesDeduplicated(tags: seq<string>, r: seq<string>)
    requires tags == ["v1.5.8", "1.8.5", "v1.5.8"]
    requires IsTagAliases(tags, r)
    ensures r == ["1.5.8", "1.8.5"]
  {
    DeduplicatedFiltered(tags);
    Ascending(["1.5.8", "1.8.5"]);
    TagNamesAre(tags, r, ["1.5.8", "1.8.5"]);
  }

  /** Three entries without white space at either end are all kept, minus one
      leading 'v' each. */
  lemma FilteredPlainThree(a: string, b: string, c: string)
    requires |a| > 0 && !IsSpace(a[0]) && !IsSpace(a[|a| - 1])
    requires |b| > 0 && !IsSpace(b[0]) && !IsSpace(b[|b| - 1])
    requires |c| > 0 && !IsSpace(c[0]) && !IsSpace(c[|c| - 1])
    ensures Filtered([a, b, c]) == [TrimPrefix(a, "v"), TrimPrefix(b, "v"), TrimPrefix(c, "v")]
  {
    FilteredPlain(a);
    FilteredPlain(b);
    FilteredPlain(c);
    FilteredThree(a, b, c);
  }

  lemma FullFilteredFront(t: seq<string>)
    requires t == ["latest", "10.22.0", "v10.0.22", ""]
    ensures Filtered(t) == ["latest", "10.22.0", "10.0.22"]
  {
    FilteredPlainThree(t[0], t[1], t[2]);
    FilteredSingle(t[3]);
    FilteredAppend([t[0], t[1], t[2]], [t[3]]);
    assert [t[0], t[1], t[2]] + [t[3]] == t;
  }

  lemma FullFilteredMiddle(t: seq<string>)
    requires t == ["v10.22.0", "v2", "v2.0"]
    ensures Filtered(t) == ["10.22.0", "2", "2.0"]
  {
    FilteredPlainThree(t[0], t[1], t[2]);
  }

  lemma FullFilteredBack(t: seq<string>)
    requires t == ["2.0.1", ""]
    ensures Filtered(t) == ["2.0.1"]
  {
    FilteredPlain(t[0]);
    FilteredSingle(t[1]);
    FilteredAppend([t[0]], [t[1]]);
    assert [t[0]] + [t[1]] == t;
  }

  lemma FullFiltered(tags: seq<string>)
    requires tags == ["latest", "10.22.0", "v10.0.22", "", "v10.22.0", "v2", "v2.0", "2.0.1", ""]
    ensures Filtered(tags) == ["latest", "10.22.0", "10.0.22", "10.22.0", "2", "2.0", "2.0.1"]
  {
    var a, b, c := tags[..4], tags[4..7], tags[7..];
    FullFilteredFront(a);
    FullFilteredMiddle(b);
    FullFilteredBack(c);
    FilteredAppend(a, b);
    FilteredAppend(a + b, c);
    assert a + b + c == tags;
  }

  /** Release names and other tag names mixed, with duplicates and blanks. */
  lemma TagNamesFull(tags: seq<string>, r: seq<string>)
    requires tags == ["latest", "10.22.0", "v10.0.22", "", "v10.22.0", "v2", "v2.0", "2.0.1", ""]
    requires IsTagAliases(tags, r)
    ensures r == ["10.0.22", "10.22.0", "2", "2.0", "2.0.1", "latest"]
  {
    FullFiltered(tags);
    Ascending(["10.0.22", "10.22.0", "2", "2.0", "2.0.1", "latest"]);
    TagNamesAre(tags, r, ["10.0.22", "10.22.0", "2", "2.0", "2.0.1", "latest"]);
  }

  /** Applying the operation to its own output can change it: one 'v' is stripped
      per call, so "vv1" gives "v1", which gives "1". */
  lemma TagNamesNotIdempotent(tags: seq<string>, r1: seq<string>, r2: seq<string>)
    requires tags == ["vv1"]
    requires IsTagAliases(tags, r1) && IsTagAliases(r1, r2)
    ensures r1 == ["v1"] && r2 == ["1"] && r1 != r2
  {
    FilteredPlain(tags[0]);
    TagNamesAre(tags, r1, ["v1"]);
    FilteredPlain(r1[0]);
    TagNamesAre(r1, r2, ["1"]);
  }

  /** The blank check comes before the 'v' is stripped, so a lone "v" survives as
      the empty string. */
  lemma TagNamesKeepsEmptyAlias(tags: seq<string>, r: seq<string>)
    requires tags == ["v"]
    requires IsTagAliases(tags, r)
    ensures r == [""]
  {
    FilteredPlain(tags[0]);
    TagNamesAre(tags, r, [""]);
  }
}
