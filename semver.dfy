/** A semantic version as Semantic Versioning 2.0.0 defines it (section 2: the
    numeric MAJOR.MINOR.PATCH core without leading zeros; section 9: the pre-release
    after '-'; section 10: build metadata after '+'), the parser the alias builder
    calls and the canonical text of a version, which the parser inverts. */
module Semver {
  import opened Optional
  import opened Text
  import opened Decimal

  /** Components are Go `int64` values; `strconv.ParseInt` rejects larger numerals. */
  const MaxInt64: nat := 0x7FFF_FFFF_FFFF_FFFF

  datatype Version = Version(major: nat, minor: nat, patch: nat, preRelease: string, metadata: string)

  /** Characters allowed in pre-release and build identifiers: [0-9A-Za-z-]. */
  predicate IsIdentChar(c: char) {
    IsDigit(c) || ('A' <= c <= 'Z') || ('a' <= c <= 'z') || c == '-'
  }

  predicate IsIdentOrDot(s: string) {
    forall k :: 0 <= k < |s| ==> IsIdentChar(s[k]) || s[k] == '.'
  }

  /** A pre-release identifier: non-empty, identifier characters only, and no leading
      zero when it is numeric. */
  predicate IsPreReleaseIdent(x: string) {
    |x| > 0 && (forall k :: 0 <= k < |x| ==> IsIdentChar(x[k])) && (IsNumeral(x) ==> IsCanonical(x))
  }

  /** A build identifier: non-empty, identifier characters only. */
  predicate IsBuildIdent(x: string) {
    |x| > 0 && forall k :: 0 <= k < |x| ==> IsIdentChar(x[k])
  }

  /** Dot-separated pre-release identifiers. */
  predicate IsPreRelease(p: string) {
    IsIdentOrDot(p) && forall x :: x in Split(p, '.') ==> IsPreReleaseIdent(x)
  }

  /** Dot-separated build identifiers. */
  predicate IsBuild(b: string) {
    IsIdentOrDot(b) && forall x :: x in Split(b, '.') ==> IsBuildIdent(x)
  }

  /** The versions the parser can produce. */
  predicate Valid(v: Version) {
    v.major <= MaxInt64 && v.minor <= MaxInt64 && v.patch <= MaxInt64
    && (v.preRelease == "" || IsPreRelease(v.preRelease))
    && (v.metadata == "" || IsBuild(v.metadata))
  }

  /** "MAJOR.MINOR.PATCH" in decimal. */
  function Core(v: Version): string {
    FormatInt(v.major) + "." + FormatInt(v.minor) + "." + FormatInt(v.patch)
  }

  /** The core followed by "-PRE" when there is a pre-release. */
  function CoreAndPreRelease(v: Version): string {
    Core(v) + (if v.preRelease == "" then "" else "-" + v.preRelease)
  }

  /** The text of a version: its core, then "-PRE" and "+BUILD" when present. */
  function Format(v: Version): string {
    CoreAndPreRelease(v) + (if v.metadata == "" then "" else "+" + v.metadata)
  }

  /** An optional part of a version's text, absent when empty. */
  function Present(x: string): Option<string> {
    if x == "" then None else Some(x)
  }

  /** The version made of the dot-separated core numerals and the optional
      pre-release and build parts, if they are all well formed. */
  function FromParts(nums: seq<string>, pre: Option<string>, build: Option<string>): (r: Option<Version>)
    ensures r.Some? ==> Valid(r.value) && |nums| == 3
  {
    if |nums| == 3 && IsCanonical(nums[0]) && IsCanonical(nums[1]) && IsCanonical(nums[2])
       && Value(nums[0]) <= MaxInt64 && Value(nums[1]) <= MaxInt64 && Value(nums[2]) <= MaxInt64
       && (pre.None? || IsPreRelease(pre.value))
       && (build.None? || IsBuild(build.value))
    then Some(Version(Value(nums[0]), Value(nums[1]), Value(nums[2]), pre.GetOr(""), build.GetOr("")))
    else None
  }

  /** Parses MAJOR.MINOR.PATCH[-PRE][+BUILD]. Build metadata is what follows the first
      '+', the pre-release what follows the first '-' before it, and the rest must be
      exactly three canonical numerals that fit in an `int64`. */
  function Parse(s: string): (r: Option<Version>)
    ensures r.Some? ==> Valid(r.value) && '+' !in r.value.preRelease
  {
    var afterPlus := Cut(s, '+');
    var afterMinus := Cut(afterPlus.0, '-');
    FromParts(Split(afterMinus.0, '.'), afterMinus.1, afterPlus.1)
  }

  lemma NotInNumeral(s: string, c: char)
    requires IsNumeral(s) && !IsDigit(c)
    ensures c !in s
  {
  }

  lemma NotInIdentOrDot(s: string, c: char)
    requires IsIdentOrDot(s) && !IsIdentChar(c) && c != '.'
    ensures c !in s
  {
  }

  /** The core text splits at its dots into the three numerals, and holds neither
      '-' nor '+'. */
  lemma CoreShape(v: Version)
    ensures Split(Core(v), '.') == [FormatInt(v.major), FormatInt(v.minor), FormatInt(v.patch)]
    ensures '-' !in Core(v) && '+' !in Core(v)
  {
    var a, b, c := FormatInt(v.major), FormatInt(v.minor), FormatInt(v.patch);
    NotInNumeral(a, '.'); NotInNumeral(b, '.'); NotInNumeral(c, '.');
    NotInNumeral(a, '-'); NotInNumeral(b, '-'); NotInNumeral(c, '-');
    NotInNumeral(a, '+'); NotInNumeral(b, '+'); NotInNumeral(c, '+');
    assert Join([a, b, c], '.') == Core(v) by {
      assert [a, b, c][1..] == [b, c];
      assert [b, c][1..] == [c];
      assert Join([b, c], '.') == b + ['.'] + c;
      assert Join([a, b, c], '.') == a + ['.'] + (b + ['.'] + c);
    }
    SplitJoin([a, b, c], '.');
  }

  /** An empty string is neither a pre-release nor build metadata. */
  lemma EmptyIdentifiers()
    ensures !IsPreRelease("") && !IsBuild("")
  {
    assert Split("", '.') == [""];
    assert "" in Split("", '.');
  }

  /** Cutting the text of a valid version at its first '+' isolates the build metadata. */
  lemma CutPlusOfFormat(v: Version)
    requires Valid(v)
    ensures Cut(Format(v), '+') == (CoreAndPreRelease(v), Present(v.metadata))
  {
    var rest := CoreAndPreRelease(v);
    CoreShape(v);
    if v.preRelease != "" {
      NotInIdentOrDot(v.preRelease, '+');
      assert rest == Core(v) + ['-'] + v.preRelease;
    }
    assert '+' !in rest;
    if v.metadata == "" {
      assert Format(v) == rest;
    } else {
      CutAt(rest, '+', v.metadata);
      assert Format(v) == rest + ['+'] + v.metadata;
    }
  }

  /** Cutting the core and pre-release at its first '-' isolates the pre-release. */
  lemma CutMinusOfFormat(v: Version)
    ensures Cut(CoreAndPreRelease(v), '-') == (Core(v), Present(v.preRelease))
  {
    var core := Core(v);
    CoreShape(v);
    if v.preRelease == "" {
      assert CoreAndPreRelease(v) == core;
    } else {
      CutAt(core, '-', v.preRelease);
      assert CoreAndPreRelease(v) == core + ['-'] + v.preRelease;
    }
  }

  /** Every valid version parses back from its text. */
  lemma ParseFormat(v: Version)
    requires Valid(v)
    ensures Parse(Format(v)) == Some(v)
  {
    CutPlusOfFormat(v);
    CutMinusOfFormat(v);
    CoreShape(v);
    ValueOfFormat(v.major);
    ValueOfFormat(v.minor);
    ValueOfFormat(v.patch);
    var nums := [FormatInt(v.major), FormatInt(v.minor), FormatInt(v.patch)];
    assert Parse(Format(v)) == FromParts(nums, Present(v.preRelease), Present(v.metadata));
  }

  /** The numerals of a three-part split, joined back with dots. */
  lemma JoinThree(core: string)
    requires |Split(core, '.')| == 3
    ensures var nums := Split(core, '.'); core == nums[0] + "." + nums[1] + "." + nums[2]
  {
    var nums := Split(core, '.');
    JoinSplit(core, '.');
    assert nums[1..][1..] == [nums[2]];
    assert Join(nums[1..], '.') == nums[1] + ['.'] + nums[2];
    assert Join(nums, '.') == nums[0] + ['.'] + (nums[1] + ['.'] + nums[2]);
  }

  /** A version assembled from parts is valid and gives back those parts. */
  lemma FromPartsText(nums: seq<string>, pre: Option<string>, build: Option<string>, v: Version)
    requires FromParts(nums, pre, build) == Some(v)
    ensures Valid(v) && |nums| == 3
    ensures FormatInt(v.major) == nums[0] && FormatInt(v.minor) == nums[1] && FormatInt(v.patch) == nums[2]
    ensures Present(v.preRelease) == pre && Present(v.metadata) == build
  {
    EmptyIdentifiers();
    FormatOfValue(nums[0]);
    FormatOfValue(nums[1]);
    FormatOfValue(nums[2]);
  }

  /** A parsed version's core, pre-release and metadata are the pieces the parser
      cut its input into. */
  lemma PartsOfParse(s: string, v: Version)
    requires Parse(s) == Some(v)
    ensures var afterPlus := Cut(s, '+'); var afterMinus := Cut(afterPlus.0, '-');
      Valid(v) && Core(v) == afterMinus.0
      && Present(v.preRelease) == afterMinus.1 && Present(v.metadata) == afterPlus.1
  {
    var afterPlus := Cut(s, '+');
    var afterMinus := Cut(afterPlus.0, '-');
    var core := afterMinus.0;
    FromPartsText(Split(core, '.'), afterMinus.1, afterPlus.1, v);
    JoinThree(core);
  }

  /** The text of a version, rebuilt from its optional parts. */
  lemma FormatRejoin(v: Version)
    ensures Format(v) == Rejoin(Rejoin(Core(v), '-', Present(v.preRelease)), '+', Present(v.metadata))
    ensures CoreAndPreRelease(v) == Rejoin(Core(v), '-', Present(v.preRelease))
  {
  }

  /** Only the canonical text of a valid version parses: the parser accepts no
      variant spellings (leading zeros, empty parts), so it is injective. */
  lemma FormatOfParse(s: string, v: Version)
    requires Parse(s) == Some(v)
    ensures Valid(v) && Format(v) == s
  {
    PartsOfParse(s, v);
    FormatRejoin(v);
    CutRejoin(s, '+');
    CutRejoin(Cut(s, '+').0, '-');
  }

  /** The core of a valid version parses to the version without pre-release and
      build metadata. */
  lemma ParseCore(v: Version)
    requires Valid(v)
    ensures Parse(Core(v)) == Some(Version(v.major, v.minor, v.patch, "", ""))
  {
    var w := Version(v.major, v.minor, v.patch, "", "");
    assert Format(w) == Core(v);
    ParseFormat(w);
  }

  /** The parser and the text of a version are inverse: `s` parses to `v` exactly
      when `v` is valid and `s` is its text. */
  lemma ParseIff(s: string, v: Version)
    ensures Parse(s) == Some(v) <==> Valid(v) && s == Format(v)
  {
    if Parse(s) == Some(v) {
      FormatOfParse(s, v);
    }
    if Valid(v) && s == Format(v) {
      ParseFormat(v);
    }
  }
}
