/** The alias builder: `FromVersion` turns one release name into its Docker-style
    tag aliases, `FromTagNames` normalises, sorts and deduplicates a list of names.
    A Go `nil` result is the empty sequence; neither operation returns an empty
    non-nil slice. */
module Aliases {
  import opened Optional
  import opened Text
  import opened Decimal
  import opened LexOrder
  import opened Semver

  /** Trim white space, then drop one leading 'v'. */
  function Normalize(s: string): string {
    TrimPrefix(TrimSpace(s), "v")
  }

  // ---------------------------------------------------------------------------
  // FromVersion

  /** The accumulator `tag` after the given components: their decimals joined by '.'. */
  function Dotted(xs: seq<nat>): (r: string)
    ensures r == "" <==> xs == []
    decreases |xs|
  {
    if |xs| == 0 then ""
    else if |xs| == 1 then FormatInt(xs[0])
    else Dotted(xs[..|xs| - 1]) + "." + FormatInt(xs[|xs| - 1])
  }

  /** The growing dotted prefixes of the components: the first is the first
      component's decimal, and each later one extends the one before it by '.'
      and the next component's decimal. */
  function Prefixes(xs: seq<nat>): (r: seq<string>)
    ensures |r| == |xs|
    ensures |xs| > 0 ==> r[0] == FormatInt(xs[0]) && r[|r| - 1] == Dotted(xs)
    ensures forall k :: 0 < k < |xs| ==> r[k] == r[k - 1] + "." + FormatInt(xs[k])
    decreases |xs|
  {
    if xs == [] then [] else Prefixes(xs[..|xs| - 1]) + [Dotted(xs)]
  }

  /** One more component extends the accumulator by '.' and its decimal, and the
      list of prefixes by the new accumulator. */
  lemma PrefixesNext(xs: seq<nat>, i: nat)
    requires i < |xs|
    ensures Dotted(xs[..i + 1]) == if i == 0 then FormatInt(xs[i]) else Dotted(xs[..i]) + "." + FormatInt(xs[i])
    ensures Prefixes(xs[..i + 1]) == Prefixes(xs[..i]) + [Dotted(xs[..i + 1])]
  {
    assert xs[..i + 1][..i] == xs[..i];
  }

  /** What `FromVersion` returns for `version`. */
  function AliasesOf(version: string): (r: seq<string>)
    ensures |r| == 0 || |r| == 1 || |r| == 3
    ensures forall k :: 0 <= k < |r| ==> r[k] != ""
  {
    var name := Normalize(version);
    if name == "" then []
    else match Parse(name)
      case None => []
      case Some(v) =>
        if v.preRelease != "" then [name] else Prefixes([v.major, v.minor, v.patch])
  }

  /** FromVersion: nothing for a blank or unparseable name, the normalised name alone
      for a pre-release, and otherwise the major, major.minor and major.minor.patch
      aliases. */
  method FromVersion(version: string) returns (tags: seq<string>)
    ensures tags == AliasesOf(version)
  {
    var name := TrimPrefix(TrimSpace(version), "v");
    if name == "" {
      return [];
    }
    var parsed := Parse(name);
    if parsed.None? {
      return [];
    }
    var v := parsed.value;
    if v.preRelease != "" {
      return [name];
    }
    tags := BuildPrefixes([v.major, v.minor, v.patch]);
  }

  /** The loop of `FromVersion` over the components of a release: it extends the
      accumulator `tag` by '.' and the next component's decimal (or starts it with
      the first one's) and appends each value it takes. */
  method BuildPrefixes(parts: seq<nat>) returns (tags: seq<string>)
    ensures tags == Prefixes(parts)
  {
    tags := [];
    var tag := "";
    for i := 0 to |parts|
      invariant tag == Dotted(parts[..i])
      invariant tags == Prefixes(parts[..i])
    {
      var n := FormatInt(parts[i]);
      PrefixesNext(parts, i);
      if tag == "" {
        tag := n;
      } else {
        tag := tag + "." + n;
      }
      tags := tags + [tag];
    }
    assert parts[..|parts|] == parts;
  }

  /** The result is empty exactly when the normalised name is empty or does not
      parse; errors are never reported otherwise. */
  lemma AliasesEmpty(version: string)
    ensures AliasesOf(version) == [] <==> Normalize(version) == "" || Parse(Normalize(version)).None?
  {
  }

  /** A name that is blank, or just "v", once trimmed has no aliases. */
  lemma AliasesOfBlank(version: string)
    requires (forall k :: 0 <= k < |version| ==> IsSpace(version[k])) || TrimSpace(version) == "v"
    ensures AliasesOf(version) == []
  {
    TrimSpaceEmpty(version);
  }

  /** A valid pre-release version, written with or without a leading 'v', has the
      single alias that is its own text. */
  lemma AliasesOfPreRelease(version: string, v: Version)
    requires Valid(v) && v.preRelease != ""
    requires TrimSpace(version) == Format(v) || TrimSpace(version) == "v" + Format(v)
    ensures AliasesOf(version) == [Format(v)]
  {
    NormalizeFormat(version, v);
    ParseFormat(v);
  }

  /** The aliases of a release are its major, major.minor and full core. */
  lemma ReleasePrefixes(v: Version)
    ensures Prefixes([v.major, v.minor, v.patch])
         == [FormatInt(v.major), FormatInt(v.major) + "." + FormatInt(v.minor), Core(v)]
  {
    var r := Prefixes([v.major, v.minor, v.patch]);
    assert r[1] == FormatInt(v.major) + "." + FormatInt(v.minor);
    assert r[2] == r[1] + "." + FormatInt(v.patch);
  }

  /** A valid release, written with or without a leading 'v', has exactly the three
      aliases MAJOR, MAJOR.MINOR and MAJOR.MINOR.PATCH, in that order. */
  lemma AliasesOfRelease(version: string, v: Version)
    requires Valid(v) && v.preRelease == ""
    requires TrimSpace(version) == Format(v) || TrimSpace(version) == "v" + Format(v)
    ensures AliasesOf(version) == [FormatInt(v.major),
                                   FormatInt(v.major) + "." + FormatInt(v.minor),
                                   FormatInt(v.major) + "." + FormatInt(v.minor) + "." + FormatInt(v.patch)]
  {
    NormalizeFormat(version, v);
    ParseFormat(v);
    ReleasePrefixes(v);
  }

  /** The text of a version starts with a digit, so trimming one 'v' recovers it. */
  lemma NormalizeFormat(version: string, v: Version)
    requires TrimSpace(version) == Format(v) || TrimSpace(version) == "v" + Format(v)
    ensures Normalize(version) == Format(v) && Format(v) != ""
  {
    assert Format(v)[0] == FormatInt(v.major)[0];
    if TrimSpace(version) == "v" + Format(v) {
      assert "v" <= TrimSpace(version);
    }
  }

  /** A name that parses as a release has the three release aliases. */
  lemma AliasesOfParsedRelease(version: string, v: Version)
    requires Parse(Normalize(version)) == Some(v) && v.preRelease == ""
    ensures AliasesOf(version) == [FormatInt(v.major), FormatInt(v.major) + "." + FormatInt(v.minor), Core(v)]
  {
    NormalizeNotEmpty(version, v);
    ReleasePrefixes(v);
  }

  /** For a release, the most specific alias is the version's core and parses back
      to the version without its build metadata. */
  lemma ReleaseAliasParses(version: string, v: Version)
    requires Parse(Normalize(version)) == Some(v) && v.preRelease == ""
    ensures |AliasesOf(version)| == 3
    ensures Parse(AliasesOf(version)[2]) == Some(v.(metadata := ""))
  {
    AliasesOfParsedRelease(version, v);
    FormatOfParse(Normalize(version), v);
    ParseCore(v);
  }

  /** For a pre-release, the one alias is the normalised name, which parses back to
      the version itself. */
  lemma PreReleaseAliasParses(version: string, v: Version)
    requires Parse(Normalize(version)) == Some(v) && v.preRelease != ""
    ensures AliasesOf(version) == [Normalize(version)]
    ensures Parse(AliasesOf(version)[0]) == Some(v)
  {
    NormalizeNotEmpty(version, v);
  }

  lemma NormalizeNotEmpty(version: string, v: Version)
    requires Parse(Normalize(version)) == Some(v)
    ensures Normalize(version) != ""
  {
    FormatOfParse(Normalize(version), v);
    assert |Format(v)| > 0;
  }

  // ---------------------------------------------------------------------------
  // FromTagNames

  /** An entry that is not blank after trimming, which the filter keeps. */
  predicate Survives(s: string) {
    TrimSpace(s) != ""
  }

  /** One entry as the filter loop treats it: dropped when blank after trimming,
      otherwise trimmed and stripped of one leading 'v'. */
  function Entry(s: string): Option<string> {
    var t := TrimSpace(s);
    if t == "" then None else Some(TrimPrefix(t, "v"))
  }

  /** The present results of `f` on the elements of `xs`, in order. */
  function FilterMap(xs: seq<string>, f: string -> Option<string>): seq<string>
    decreases |xs|
  {
    if xs == [] then []
    else
      var y := f(xs[|xs| - 1]);
      FilterMap(xs[..|xs| - 1], f) + (if y.Some? then [y.value] else [])
  }

  /** The filter's output: each surviving entry normalised, in input order. */
  function Filtered(tags: seq<string>): seq<string> {
    FilterMap(tags, Entry)
  }

  /** filterInputNames: the loop that trims each entry, skips blank ones and strips
      one 'v' from the others, keeping their order. */
  method FilterInputNames(tags: seq<string>) returns (strv: seq<string>)
    ensures strv == Filtered(tags)
  {
    strv := [];
    for i := 0 to |tags|
      invariant strv == Filtered(tags[..i])
    {
      var s := TrimSpace(tags[i]);
      if s != "" {
        s := TrimPrefix(s, "v");
        strv := strv + [s];
      }
      assert tags[..i + 1][..i] == tags[..i];
    }
    assert tags[..|tags|] == tags;
  }

  lemma {:induction false} FilterMapAppend(a: seq<string>, b: seq<string>, f: string -> Option<string>)
    ensures FilterMap(a + b, f) == FilterMap(a, f) + FilterMap(b, f)
    decreases |b|
  {
    if b == [] {
      assert a + b == a;
    } else {
      var init := b[..|b| - 1];
      FilterMapAppend(a, init, f);
      assert (a + b)[..|a + b| - 1] == a + init;
    }
  }

  lemma FilterMapSingle(x: string, f: string -> Option<string>)
    ensures FilterMap([x], f) == if f(x).Some? then [f(x).value] else []
  {
    assert [x][..0] == [];
  }

  lemma {:induction false} FilterMapMembers(xs: seq<string>, f: string -> Option<string>, x: string)
    ensures x in FilterMap(xs, f) <==> exists k :: 0 <= k < |xs| && f(xs[k]) == Some(x)
    decreases |xs|
  {
    if xs != [] {
      var init := xs[..|xs| - 1];
      FilterMapMembers(init, f, x);
      if x in FilterMap(init, f) {
        var k :| 0 <= k < |init| && f(init[k]) == Some(x);
        assert xs[k] == init[k];
      }
      if exists k :: 0 <= k < |xs| && f(xs[k]) == Some(x) {
        var k :| 0 <= k < |xs| && f(xs[k]) == Some(x);
        if k < |init| {
          assert init[k] == xs[k];
        }
      }
    }
  }

  /** An entry yields its normalised text exactly when it survives. */
  lemma EntryIs(s: string)
    ensures Entry(s) == if Survives(s) then Some(Normalize(s)) else None
  {
  }

  /** An entry without white space at either end is kept, minus one leading 'v'. */
  lemma FilteredPlain(x: string)
    requires |x| > 0 && !IsSpace(x[0]) && !IsSpace(x[|x| - 1])
    ensures Filtered([x]) == [TrimPrefix(x, "v")]
  {
    TrimSpaceUnchanged(x);
    FilterMapSingle(x, Entry);
  }

  /** Filtering works entry by entry: it distributes over concatenation, so the
      output keeps the input order. */
  lemma FilteredAppend(a: seq<string>, b: seq<string>)
    ensures Filtered(a + b) == Filtered(a) + Filtered(b)
  {
    FilterMapAppend(a, b, Entry);
  }

  /** The filter's output holds exactly the normalised surviving entries. */
  lemma FilteredMembers(tags: seq<string>, x: string)
    ensures x in Filtered(tags) <==> exists k :: 0 <= k < |tags| && Survives(tags[k]) && x == Normalize(tags[k])
  {
    FilterMapMembers(tags, Entry, x);
    forall k | 0 <= k < |tags|
      ensures Entry(tags[k]) == Some(x) <==> Survives(tags[k]) && x == Normalize(tags[k])
    {
      EntryIs(tags[k]);
    }
  }

  /** The filter drops everything exactly when every entry is blank. */
  lemma FilteredEmpty(tags: seq<string>)
    ensures Filtered(tags) == [] <==> forall k :: 0 <= k < |tags| ==> !Survives(tags[k])
  {
    if Filtered(tags) != [] {
      FilteredMembers(tags, Filtered(tags)[0]);
    } else {
      forall k | 0 <= k < |tags|
        ensures !Survives(tags[k])
      {
        FilteredMembers(tags, Normalize(tags[k]));
      }
    }
  }

  /** `sort.Strings`: sorts the slice in place into ascending byte-wise order; the
      contents are permuted, nothing is added or lost. */
  method SortStrings(a: array<string>)
    modifies a
    ensures Sorted(a[..])
    ensures multiset(a[..]) == multiset(old(a[..]))
  {
    if a.Length == 0 {
      return;
    }
    for i := 1 to a.Length
      invariant Sorted(a[..i])
      invariant multiset(a[..]) == multiset(old(a[..]))
    {
      InsertLast(a, i);
    }
    assert a[..a.Length] == a[..];
  }

  /** One insertion-sort step: moves `a[i]` left past every greater element, so a
      sorted prefix of length `i` becomes a sorted prefix of length `i + 1`. */
  method InsertLast(a: array<string>, i: nat)
    requires 0 < i < a.Length
    requires Sorted(a[..i])
    modifies a
    ensures Sorted(a[..i + 1])
    ensures multiset(a[..]) == multiset(old(a[..]))
    ensures a[i + 1..] == old(a[i + 1..])
  {
    var j := i;
    InsertingStart(a[..], i);
    while j > 0 && Less(a[j], a[j - 1])
      invariant Inserting(a[..], i, j)
      invariant multiset(a[..]) == multiset(old(a[..]))
      invariant a[i + 1..] == old(a[i + 1..])
    {
      ghost var before := a[..];
      a[j - 1], a[j] := a[j], a[j - 1];
      assert a[..] == before[j - 1 := before[j]][j := before[j - 1]];
      assert a[i + 1..] == before[i + 1..];
      InsertingStep(before, i, j);
      j := j - 1;
    }
    InsertingDone(a[..], i, j);
  }

  /** The state of an insertion step with the moving element at `j`: the first
      `i + 1` elements are in order except around `j`, and the neighbours of `j`
      are in order with each other. */
  ghost predicate Inserting(s: seq<string>, i: nat, j: nat) {
    j <= i < |s|
    && (forall k :: 1 <= k <= i && k != j ==> !Less(s[k], s[k - 1]))
    && (0 < j < i ==> !Less(s[j + 1], s[j - 1]))
  }

  lemma InsertingStart(s: seq<string>, i: nat)
    requires 0 < i < |s| && Sorted(s[..i])
    ensures Inserting(s, i, i)
  {
    forall k | 1 <= k < i
      ensures !Less(s[k], s[k - 1])
    {
      assert s[..i][k] == s[k] && s[..i][k - 1] == s[k - 1];
    }
  }

  lemma InsertingStep(s: seq<string>, i: nat, j: nat)
    requires Inserting(s, i, j) && 0 < j && Less(s[j], s[j - 1])
    ensures Inserting(s[j - 1 := s[j]][j := s[j - 1]], i, j - 1)
  {
    LessAsymmetric(s[j], s[j - 1]);
  }

  lemma InsertingDone(s: seq<string>, i: nat, j: nat)
    requires Inserting(s, i, j) && (j == 0 || !Less(s[j], s[j - 1]))
    ensures Sorted(s[..i + 1])
  {
  }

  /** The compaction loop's result: each element kept unless it equals the last one
      kept so far. */
  function Compacted(s: seq<string>): (r: seq<string>)
    ensures |r| <= |s|
    ensures |s| > 0 ==> |r| > 0 && r[0] == s[0] && r[|r| - 1] == s[|s| - 1]
    decreases |s|
  {
    if |s| <= 1 then s
    else
      var c := Compacted(s[..|s| - 1]);
      if c[|c| - 1] == s[|s| - 1] then c else c + [s[|s| - 1]]
  }

  /** The in-place deduplication: `j` is the write index, `i` the read index; the
      first `len` cells end up holding the compacted slice and the rest is left as
      it was. */
  method Compact(a: array<string>) returns (len: nat)
    requires a.Length > 0
    modifies a
    ensures 1 <= len <= a.Length
    ensures a[..len] == Compacted(old(a[..]))
    ensures a[len..] == old(a[..])[len..]
  {
    ghost var s := a[..];
    var j := 0;
    for i := 1 to a.Length
      invariant 0 <= j < i
      invariant a[..j + 1] == Compacted(s[..i])
      invariant a[j + 1..] == s[j + 1..]
    {
      CompactedNext(s, i);
      ghost var kept := a[..j + 1];
      assert a[i] == s[i] && kept[|kept| - 1] == a[j];
      if a[j] == a[i] {
        assert Compacted(s[..i + 1]) == kept;
        continue;
      }
      assert Compacted(s[..i + 1]) == kept + [s[i]];
      ghost var rest := a[j + 2..];
      j := j + 1;
      a[j] := a[i];
      assert a[..j] == kept && a[j + 1..] == rest;
      assert a[..j + 1] == kept + [s[i]];
    }
    assert s[..a.Length] == s;
    len := j + 1;
  }

  /** Extending the input by one element extends the compaction by it, unless it
      equals the last element kept. */
  lemma CompactedNext(s: seq<string>, i: nat)
    requires 0 < i < |s|
    ensures var c := Compacted(s[..i]);
      Compacted(s[..i + 1]) == if c[|c| - 1] == s[i] then c else c + [s[i]]
  {
    assert s[..i + 1][..i] == s[..i];
  }

  /** Compaction keeps exactly the elements of its input. */
  lemma {:induction false} CompactedMembers(s: seq<string>, x: string)
    ensures x in Compacted(s) <==> x in s
    decreases |s|
  {
    if |s| > 1 {
      var init := s[..|s| - 1];
      CompactedMembers(init, x);
      assert s == init + [s[|s| - 1]];
    }
  }

  /** Compacting a sorted sequence leaves it strictly increasing. */
  lemma {:induction false} CompactedSorted(s: seq<string>)
    requires Sorted(s)
    ensures StrictlyIncreasing(Compacted(s))
    decreases |s|
  {
    if |s| > 1 {
      var init := s[..|s| - 1];
      var y := s[|s| - 1];
      CompactedSorted(init);
      var c := Compacted(init);
      if c[|c| - 1] != y {
        var last := c[|c| - 1];
        assert last == s[|s| - 2];
        LessTotal(last, y);
        forall p | 0 <= p < |c|
          ensures Less(c[p], y)
        {
          if p < |c| - 1 {
            LessTransitive(c[p], last, y);
          }
        }
      }
    }
  }

  /** What `FromTagNames` promises about `r`: strictly ascending, and holding exactly
      the normalised surviving entries of `tags`. */
  ghost predicate IsTagAliases(tags: seq<string>, r: seq<string>)
    ensures IsTagAliases(tags, r) ==> forall p, q :: 0 <= p < q < |r| ==> r[p] != r[q]
  {
    StrictlyIncreasing(r) && forall x :: x in r <==> x in Filtered(tags)
  }

  /** The promise fixes the result: there is only one list that meets it. */
  lemma TagAliasesUnique(tags: seq<string>, r1: seq<string>, r2: seq<string>)
    requires IsTagAliases(tags, r1) && IsTagAliases(tags, r2)
    ensures r1 == r2
  {
    StrictlyIncreasingUnique(r1, r2);
  }

  /** FromTagNames: filter and normalise, sort, then compact the sorted copy in
      place. The caller's list is only read; the work happens on a fresh array. */
  method FromTagNames(tags: seq<string>) returns (r: seq<string>)
    ensures IsTagAliases(tags, r)
    ensures r == [] <==> forall k :: 0 <= k < |tags| ==> !Survives(tags[k])
  {
    FilteredEmpty(tags);
    if |tags| == 0 {
      return [];
    }
    var strv := FilterInputNames(tags);
    if |strv| == 0 {
      return [];
    }
    var a := new string[|strv|](k requires 0 <= k < |strv| => strv[k]);
    assert a[..] == strv;
    SortStrings(a);
    ghost var sorted := a[..];
    var len := Compact(a);
    r := a[..len];
    CompactedSorted(sorted);
    forall x
      ensures x in r <==> x in strv
    {
      CompactedMembers(sorted, x);
      assert x in sorted <==> x in multiset(sorted);
      assert x in strv <==> x in multiset(strv);
    }
  }
}
