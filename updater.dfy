/**
 * The version catalog: the build listing returned by the CI service is
 * filtered down to the installable builds and each is turned into an
 * `EverestVersion` (src/updater.rs).
 *
 * The decoded JSON is modelled as a list of build records whose fields are
 * optional, exactly as `Value::as_str`, `Value::as_u64` and the match on
 * `Value::String` see them.
 */
module Updater {
  import opened Base

  /** What `Value::as_u64` can return. */
  type U64 = n: nat | n < 0x1_0000_0000_0000_0000

  /** One element of the listing's `value` array, seen through its accessors. */
  datatype Build = Build(
    status: Option<string>,
    result: Option<string>,
    reason: Option<string>,
    id: Option<U64>,
    sourceBranch: Option<string>)

  /** The outcome of the listing request. `Decoded(None)` is a JSON body whose
      `value` member is not an array. */
  datatype Reply = RequestFailed | BodyNotJson | Decoded(value: Option<seq<Build>>)

  /** One installable version. */
  datatype EverestVersion = EverestVersion(branch: string, url: string, ver: nat)

  const Completed: string := "completed"
  const SucceededResult: string := "succeeded"
  const Manual: string := "manual"
  const IndividualCI: string := "individualCI"
  const RefsHeads: string := "refs/heads/"
  const UrlHead: string := "https://dev.azure.com/EverestAPI/Everest/_apis/build/builds/"
  const UrlTail: string := "/artifacts?artifactName=main&api-version=5.0&%24format=zip"
  const VersionOffset: nat := 700

  // ---------------------------------------------------------------------
  // `str::replace(pattern, "")`: every non-overlapping occurrence of the
  // pattern, found left to right, is deleted.

  predicate MatchAt(s: string, p: string, k: nat)
  {
    k + |p| <= |s| && s[k..k + |p|] == p
  }

  function RemoveAll(s: string, p: string): (r: string)
    requires p != []
    ensures |r| <= |s|
    decreases |s|
  {
    if |s| < |p| then s
    else if s[..|p|] == p then RemoveAll(s[|p|..], p)
    else [s[0]] + RemoveAll(s[1..], p)
  }

  /** Dropping the first character moves every occurrence one place left. */
  lemma MatchAtShift(s: string, p: string, k: nat)
    requires s != []
    ensures MatchAt(s[1..], p, k) <==> MatchAt(s, p, k + 1)
  {
    if k + 1 + |p| <= |s| {
      var u, v := s[1..][k..k + |p|], s[k + 1..k + 1 + |p|];
      assert forall j :: 0 <= j < |p| ==> u[j] == v[j];
      assert u == v;
    }
  }

  /** A string in which the pattern never occurs is returned unchanged. */
  lemma {:induction false} RemoveAllWithoutMatch(s: string, p: string)
    requires p != []
    requires forall k: nat :: !MatchAt(s, p, k)
    ensures RemoveAll(s, p) == s
    decreases |s|
  {
    if |s| >= |p| {
      assert !MatchAt(s, p, 0);
      forall k: nat ensures !MatchAt(s[1..], p, k) {
        MatchAtShift(s, p, k);
      }
      RemoveAllWithoutMatch(s[1..], p);
    }
  }

  /** The leftmost occurrence is deleted and the scan goes on after it: text
      before it is kept verbatim. Together with RemoveAllWithoutMatch this
      characterises the whole result, occurrence by occurrence. */
  lemma {:induction false} RemoveAllLeftmost(a: string, p: string, b: string)
    requires p != []
    requires forall k: nat :: k < |a| ==> !MatchAt(a + p + b, p, k)
    ensures RemoveAll(a + p + b, p) == a + RemoveAll(b, p)
    decreases |a|
  {
    var s := a + p + b;
    if a == [] {
      assert s == p + b;
      RemoveAllAtStart(p, b);
    } else {
      RemoveAllKeepsHead(s, p);
      var a' := a[1..];
      assert s[1..] == a' + p + b;
      forall k: nat | k < |a'| ensures !MatchAt(a' + p + b, p, k) {
        MatchAtShift(s, p, k);
      }
      RemoveAllLeftmost(a', p, b);
      assert [s[0]] + (a' + RemoveAll(b, p)) == a + RemoveAll(b, p);
    }
  }

  /** An occurrence at the start is deleted and the scan resumes after it. */
  lemma RemoveAllAtStart(p: string, b: string)
    requires p != []
    ensures RemoveAll(p + b, p) == RemoveAll(b, p)
  {
    var s := p + b;
    assert s[..|p|] == p;
    assert s[|p|..] == b;
  }

  /** A first character that does not start an occurrence is kept. */
  lemma RemoveAllKeepsHead(s: string, p: string)
    requires p != [] && s != []
    requires !MatchAt(s, p, 0)
    ensures RemoveAll(s, p) == [s[0]] + RemoveAll(s[1..], p)
  {
  }

  /** A position holding a character other than the pattern's first cannot
      start an occurrence. */
  lemma NoMatchAtOtherChar(s: string, p: string, k: nat)
    requires p != [] && k < |s| && s[k] != p[0]
    ensures !MatchAt(s, p, k)
  {
    if k + |p| <= |s| {
      assert s[k..k + |p|][0] == s[k];
    }
  }

  /** A head none of whose characters is the pattern's first holds no
      occurrence. */
  lemma NoMatchInHead(a: string, p: string, rest: string)
    requires p != []
    requires p[0] !in a
    ensures forall k: nat :: k < |a| ==> !MatchAt(a + rest, p, k)
  {
    forall k: nat | k < |a| ensures !MatchAt(a + rest, p, k) {
      assert (a + rest)[k] == a[k];
      NoMatchAtOtherChar(a + rest, p, k);
    }
  }

  /** A branch name that carries the prefix more than once loses every copy,
      not only the leading one. */
  lemma RemoveAllEveryOccurrence()
    ensures RemoveAll(RefsHeads + "dev/" + RefsHeads + "x", RefsHeads) == "dev/x"
  {
    var none: string := [];
    var a, tail := "dev/", "x";
    var b := a + RefsHeads + tail;
    assert none + RefsHeads + b == RefsHeads + "dev/" + RefsHeads + "x";
    RemoveAllLeftmost(none, RefsHeads, b);
    assert RefsHeads[0] !in a;
    NoMatchInHead(a, RefsHeads, RefsHeads + tail);
    assert a + RefsHeads + tail == a + (RefsHeads + tail);
    RemoveAllLeftmost(a, RefsHeads, tail);
    assert RemoveAll(tail, RefsHeads) == tail;
  }

  // ---------------------------------------------------------------------
  // `format!("…/builds/{}/artifacts…", id)`: the decimal rendering of the id
  // between a fixed head and tail.

  predicate IsDigit(c: char) { '0' <= c <= '9' }

  predicate AllDigits(s: string) { forall i :: 0 <= i < |s| ==> IsDigit(s[i]) }

  function DigitChar(d: nat): (c: char)
    requires d < 10
    ensures IsDigit(c) && c as int - '0' as int == d
  {
    (d + '0' as int) as char
  }

  /** `Display` for an unsigned integer: most significant digit first, with
      no leading zero except in "0" itself. */
  function Decimal(n: nat): (s: string)
    ensures s != [] && AllDigits(s)
    decreases n
  {
    if n < 10 then [DigitChar(n)] else Decimal(n / 10) + [DigitChar(n % 10)]
  }

  /** The rendering is canonical: it starts with '0' only for zero itself. */
  lemma {:induction false} DecimalCanonical(n: nat)
    ensures Decimal(n)[0] == '0' <==> n == 0
    decreases n
  {
    if n >= 10 {
      DecimalCanonical(n / 10);
    }
  }

  /** The value a string of decimal digits denotes. */
  function ParseDecimal(s: string): nat
    requires AllDigits(s)
    decreases |s|
  {
    if s == [] then 0
    else ParseDecimal(s[..|s| - 1]) * 10 + (s[|s| - 1] as int - '0' as int)
  }

  lemma {:induction false} ParseDecimalOfDecimal(n: nat)
    ensures ParseDecimal(Decimal(n)) == n
    decreases n
  {
    if n >= 10 {
      var s := Decimal(n);
      assert s[..|s| - 1] == Decimal(n / 10);
      ParseDecimalOfDecimal(n / 10);
    }
  }

  function ArtifactUrl(id: nat): string
  {
    UrlHead + Decimal(id) + UrlTail
  }

  /** The build id an artifact URL names, if it has the template's shape. */
  function UrlId(url: string): Option<nat>
  {
    if |url| > |UrlHead| + |UrlTail|
       && url[..|UrlHead|] == UrlHead
       && url[|url| - |UrlTail|..] == UrlTail
       && AllDigits(url[|UrlHead|..|url| - |UrlTail|])
    then Some(ParseDecimal(url[|UrlHead|..|url| - |UrlTail|]))
    else None
  }

  /** The id is substituted at the single placeholder and can be read back:
      distinct builds get distinct download URLs. */
  lemma ArtifactUrlNamesId(id: nat)
    ensures UrlId(ArtifactUrl(id)) == Some(id)
  {
    var url := ArtifactUrl(id);
    var d := Decimal(id);
    assert url[..|UrlHead|] == UrlHead;
    assert url[|url| - |UrlTail|..] == UrlTail;
    assert url[|UrlHead|..|url| - |UrlTail|] == d;
    ParseDecimalOfDecimal(id);
  }

  // ---------------------------------------------------------------------
  // The filter and the map.

  /** The build ran to completion and succeeded. */
  predicate Succeeded(b: Build)
  {
    b.status == Some(Completed) && b.result == Some(SucceededResult)
  }

  /** The build was started by hand or by an individual CI trigger. */
  predicate WantedReason(b: Build)
  {
    b.reason == Some(Manual) || b.reason == Some(IndividualCI)
  }

  /** The build becomes an entry of the catalog. */
  predicate Kept(b: Build)
  {
    Succeeded(b) && WantedReason(b) && b.id.Some? && b.sourceBranch.Some?
  }

  function ToVersion(b: Build): EverestVersion
    requires Kept(b)
  {
    EverestVersion(RemoveAll(b.sourceBranch.value, RefsHeads), ArtifactUrl(b.id.value), b.id.value + VersionOffset)
  }

  /** The entries built from a listing, in listing order. */
  function Catalog(builds: seq<Build>): (r: seq<EverestVersion>)
    ensures |r| <= |builds|
    decreases |builds|
  {
    if builds == [] then []
    else
      var last := builds[|builds| - 1];
      Catalog(builds[..|builds| - 1]) + (if Kept(last) then [ToVersion(last)] else [])
  }

  /** The result of `get_versions` for a reply. */
  function Versions(reply: Reply): seq<EverestVersion>
  {
    if reply.Decoded? && reply.value.Some? then Catalog(reply.value.value) else []
  }

  /** `get_versions`: a failed request, an undecodable body or a `value` that
      is not an array give an empty list; otherwise each build is examined in
      order and the kept ones are pushed. */
  method GetVersions(reply: Reply) returns (entries: seq<EverestVersion>)
    ensures entries == Versions(reply)
    ensures !(reply.Decoded? && reply.value.Some?) ==> entries == []
  {
    entries := [];
    if !reply.Decoded? {
      return;
    }
    if reply.value.None? {
      return;
    }
    var list := reply.value.value;
    for i := 0 to |list|
      invariant entries == Catalog(list[..i])
    {
      var build := list[i];
      assert list[..i + 1][..i] == list[..i];
      if build.status != Some(Completed) || build.result != Some(SucceededResult) {
        continue;
      }
      if build.reason != Some(Manual) && build.reason != Some(IndividualCI) {
        continue;
      }
      if build.id.None? {
        continue;
      }
      var id := build.id.value;
      if build.sourceBranch.None? {
        continue;
      }
      var branch := RemoveAll(build.sourceBranch.value, RefsHeads);
      var url := ArtifactUrl(id);
      entries := entries + [EverestVersion(branch, url, id + VersionOffset)];
    }
    assert list[..|list|] == list;
  }

  // ---------------------------------------------------------------------
  // Properties of the catalog.

  /** Skipping a build does not end the walk: the catalog of a concatenation
      is the concatenation of the catalogs. */
  lemma {:induction false} CatalogAppend(xs: seq<Build>, ys: seq<Build>)
    ensures Catalog(xs + ys) == Catalog(xs) + Catalog(ys)
    decreases |ys|
  {
    if ys == [] {
      assert xs + ys == xs;
    } else {
      var ys' := ys[..|ys| - 1];
      assert (xs + ys)[..|xs + ys| - 1] == xs + ys';
      CatalogAppend(xs, ys');
    }
  }

  /** The indices of the kept builds, in increasing order. */
  function KeptIndices(builds: seq<Build>): seq<nat>
    decreases |builds|
  {
    if builds == [] then []
    else
      KeptIndices(builds[..|builds| - 1])
      + (if Kept(builds[|builds| - 1]) then [|builds| - 1] else [])
  }

  /** The kept indices are in range, point at kept builds and increase; the
      j-th catalog entry is the j-th kept build, mapped. */
  lemma {:induction false} KeptIndicesSound(builds: seq<Build>)
    ensures var r, idx := Catalog(builds), KeptIndices(builds);
      && |r| == |idx|
      && (forall j :: 0 <= j < |idx| ==> idx[j] < |builds| && Kept(builds[idx[j]]) && r[j] == ToVersion(builds[idx[j]]))
      && (forall j, j' :: 0 <= j < j' < |idx| ==> idx[j] < idx[j'])
    decreases |builds|
  {
    KeptIndicesIncrease(builds);
    if builds != [] {
      var init, last := builds[..|builds| - 1], builds[|builds| - 1];
      KeptIndicesSound(init);
      var r0, idx0 := Catalog(init), KeptIndices(init);
      assert forall j :: 0 <= j < |idx0| ==> builds[idx0[j]] == init[idx0[j]];
      if Kept(last) {
        assert Catalog(builds) == r0 + [ToVersion(last)];
        assert KeptIndices(builds) == idx0 + [|builds| - 1];
      } else {
        assert Catalog(builds) == r0;
        assert KeptIndices(builds) == idx0;
      }
    }
  }

  /** The kept indices lie below the listing's length and increase. */
  lemma {:induction false} KeptIndicesIncrease(builds: seq<Build>)
    ensures forall j :: 0 <= j < |KeptIndices(builds)| ==> KeptIndices(builds)[j] < |builds|
    ensures forall j, j' :: 0 <= j < j' < |KeptIndices(builds)| ==> KeptIndices(builds)[j] < KeptIndices(builds)[j']
    decreases |builds|
  {
    if builds != [] {
      KeptIndicesIncrease(builds[..|builds| - 1]);
    }
  }

  /** No kept build is missing from the kept indices. */
  lemma {:induction false} KeptIndicesComplete(builds: seq<Build>, i: nat)
    requires i < |builds| && Kept(builds[i])
    ensures i in KeptIndices(builds)
    decreases |builds|
  {
    if i < |builds| - 1 {
      var init := builds[..|builds| - 1];
      assert init[i] == builds[i];
      KeptIndicesComplete(init, i);
    }
  }

  /** The build a catalog entry comes from: a kept build that maps to it. */
  lemma {:induction false} SourceOf(builds: seq<Build>, j: nat) returns (i: nat)
    requires j < |Catalog(builds)|
    ensures i < |builds| && Kept(builds[i]) && ToVersion(builds[i]) == Catalog(builds)[j]
    decreases |builds|
  {
    var init := builds[..|builds| - 1];
    if j < |Catalog(init)| {
      i := SourceOf(init, j);
      assert builds[i] == init[i];
    } else {
      i := |builds| - 1;
    }
  }

  /** Every kept build gives a catalog entry. */
  lemma {:induction false} CatalogComplete(builds: seq<Build>, i: nat)
    requires i < |builds| && Kept(builds[i])
    ensures ToVersion(builds[i]) in Catalog(builds)
    decreases |builds|
  {
    var init := builds[..|builds| - 1];
    if i < |init| {
      assert init[i] == builds[i];
      CatalogComplete(init, i);
    }
  }

  /** Inclusion rule, both directions: an entry is in the catalog exactly when
      some listed build is kept and maps to it. */
  lemma CatalogMembership(builds: seq<Build>, v: EverestVersion)
    ensures v in Catalog(builds) <==> exists i :: 0 <= i < |builds| && Kept(builds[i]) && ToVersion(builds[i]) == v
  {
    if v in Catalog(builds) {
      var j :| 0 <= j < |Catalog(builds)| && Catalog(builds)[j] == v;
      var i := SourceOf(builds, j);
    }
    if exists i :: 0 <= i < |builds| && Kept(builds[i]) && ToVersion(builds[i]) == v {
      var i :| 0 <= i < |builds| && Kept(builds[i]) && ToVersion(builds[i]) == v;
      CatalogComplete(builds, i);
    }
  }

  /** What an entry says about the build it came from: a completed, succeeded
      build triggered manually or by individual CI, with an id and a branch;
      the version is the id plus 700, the URL the template around the id, and
      the branch the source branch with every "refs/heads/" removed. */
  predicate Describes(v: EverestVersion, b: Build)
  {
    && b.status == Some(Completed)
    && b.result == Some(SucceededResult)
    && (b.reason == Some(Manual) || b.reason == Some(IndividualCI))
    && b.id.Some? && b.sourceBranch.Some?
    && v.ver == b.id.value + VersionOffset
    && v.url == ArtifactUrl(b.id.value)
    && UrlId(v.url) == Some(b.id.value)
    && v.branch == RemoveAll(b.sourceBranch.value, RefsHeads)
  }

  /** A kept build's entry describes it. */
  lemma ToVersionDescribes(b: Build)
    requires Kept(b)
    ensures Describes(ToVersion(b), b)
  {
    ArtifactUrlNamesId(b.id.value);
  }

  /** Every entry, field by field, describes some listed build. */
  lemma CatalogEntryFields(builds: seq<Build>, j: nat)
    requires j < |Catalog(builds)|
    ensures exists i :: 0 <= i < |builds| && Describes(Catalog(builds)[j], builds[i])
  {
    var i := SourceOf(builds, j);
    ToVersionDescribes(builds[i]);
  }

  lemma CatalogOfSkipped(b: Build)
    requires !Kept(b)
    ensures Catalog([b]) == []
  {
    assert [b][..0] == [];
  }

  /** A build that fails any filter, or lacks an id or a branch, adds nothing
      and the builds after it are still examined. */
  lemma SkippedBuildAddsNothing(before: seq<Build>, b: Build, after: seq<Build>)
    requires !Kept(b)
    ensures Catalog(before + [b] + after) == Catalog(before) + Catalog(after)
  {
    CatalogOfSkipped(b);
    CatalogAppend(before, [b]);
    assert Catalog(before) + [] == Catalog(before);
    CatalogAppend(before + [b], after);
  }

  /** Two builds with ids 100 and 205 give versions 800 and 905. */
  lemma CatalogExample()
    ensures var b1 := Build(Some(Completed), Some(SucceededResult), Some(Manual), Some(100), Some("refs/heads/dev"));
            var b2 := Build(Some(Completed), Some(SucceededResult), Some(IndividualCI), Some(205), Some("refs/heads/stable"));
            var r := Catalog([b1, b2]);
            |r| == 2 && r[0].ver == 800 && r[1].ver == 905
  {
  }
}
