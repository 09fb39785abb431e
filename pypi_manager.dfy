/**
 The version logic of the `PyPIManager` helpers: the releases a package-index
 response yields, the substring filter that drops pre-release identifiers, and
 the pick of the last survivor as the latest stable version.
 */
module PyPIManager {
  import opened Wrappers
  import opened Text

  /** The package index's answer to `GET /pypi/<name>/json`: its HTTP status
      and the keys of its `releases` object, in the order the version sort
      puts them (that sort is a library call outside this model). */
  datatype Response = Response(statusCode: int, releaseKeys: seq<string>)

  /** `get_pypi_package_versions`: the ordered release keys on status 200,
      and the empty list for any other status. */
  function GetPyPIPackageVersions(resp: Response): (versions: seq<string>)
    ensures resp.statusCode != 200 ==> versions == []
    ensures resp.statusCode == 200 ==> versions == resp.releaseKeys
  {
    if resp.statusCode == 200 then resp.releaseKeys else []
  }

  /** A version passes the filter when it contains none of the literal
      substrings "a", "b" and "rc": no letter a, no letter b, and no "rc". */
  predicate IsStable(v: string)
    ensures IsStable(v) <==> 'a' !in v && 'b' !in v && !Contains(v, "rc")
  {
    ContainsChar(v, 'a');
    ContainsChar(v, 'b');
    !Contains(v, "a") && !Contains(v, "b") && !Contains(v, "rc")
  }

  /** The comprehension `[v for v in versions if <stable>]`, built from the
      back: the versions that pass the filter, in their original order. */
  function StableVersions(versions: seq<string>): (stable: seq<string>)
    ensures |stable| <= |versions|
    ensures forall v :: v in stable <==> v in versions && IsStable(v)
    decreases |versions|
  {
    if versions == [] then []
    else
      var init := versions[..|versions| - 1];
      var last := versions[|versions| - 1];
      assert versions == init + [last];
      StableVersions(init) + (if IsStable(last) then [last] else [])
  }

  /** A one-element list keeps its element exactly when it passes the filter. */
  lemma StableVersionsOfOne(v: string)
    ensures StableVersions([v]) == if IsStable(v) then [v] else []
  {
  }

  /** Filtering a concatenation is concatenating the filtered parts; with
      StableVersionsOfOne this pins the filter down as the order- and
      repeat-preserving comprehension. */
  lemma {:induction false} StableVersionsAppend(a: seq<string>, b: seq<string>)
    ensures StableVersions(a + b) == StableVersions(a) + StableVersions(b)
    decreases |b|
  {
    if b == [] {
      assert a + b == a;
    } else {
      var init, last := b[..|b| - 1], b[|b| - 1];
      assert b == init + [last];
      assert a + b == (a + init) + [last];
      assert (a + b)[..|a + b| - 1] == a + init;
      StableVersionsAppend(a, init);
    }
  }

  /** The last element of the filtered list, or None when nothing survives. */
  function LatestStable(versions: seq<string>): (r: Option<string>)
    ensures r.Some? ==> IsStable(r.value) && r.value in versions
    ensures r.None? <==> forall v :: v in versions ==> !IsStable(v)
  {
    var stable := StableVersions(versions);
    if stable != [] then
      assert stable[|stable| - 1] in stable;
      Some(stable[|stable| - 1])
    else
      None
  }

  /** `get_latest_stable_version`: the versions the index response yields,
      filtered, and the last one of them. */
  function GetLatestStableVersion(resp: Response): (r: Option<string>)
    ensures r.Some? ==> IsStable(r.value) && r.value in resp.releaseKeys
    ensures r.None? <==> resp.statusCode != 200 || forall v :: v in resp.releaseKeys ==> !IsStable(v)
  {
    LatestStable(GetPyPIPackageVersions(resp))
  }

  /** The latest stable version sits at some position of the list after which
      no version passes the filter, and it is None only when none does. */
  lemma {:induction false} LatestStableIsLastSurvivor(versions: seq<string>)
    ensures LatestStable(versions).Some? ==>
              exists k :: 0 <= k < |versions| && versions[k] == LatestStable(versions).value
                          && forall j :: k < j < |versions| ==> !IsStable(versions[j])
    decreases |versions|
  {
    if versions != [] {
      var n := |versions|;
      var init, last := versions[..n - 1], versions[n - 1];
      assert versions == init + [last];
      if IsStable(last) {
        assert StableVersions(versions) == StableVersions(init) + [last];
        assert LatestStable(versions) == Some(versions[n - 1]);
      } else {
        assert StableVersions(versions) == StableVersions(init);
        assert LatestStable(versions) == LatestStable(init);
        LatestStableIsLastSurvivor(init);
        if LatestStable(init).Some? {
          var k :| 0 <= k < |init| && init[k] == LatestStable(init).value
                   && forall j :: k < j < |init| ==> !IsStable(init[j]);
          assert versions[k] == init[k];
          assert forall j :: k < j < n ==> !IsStable(versions[j]) by {
            forall j | k < j < n ensures !IsStable(versions[j]) {
              if j < n - 1 {
                assert versions[j] == init[j];
              }
            }
          }
        }
      }
    }
  }

  /** Pairwise sortedness of a version list under an ordering `le`. */
  ghost predicate SortedBy(versions: seq<string>, le: (string, string) -> bool)
  {
    forall i, j :: 0 <= i < j < |versions| ==> le(versions[i], versions[j])
  }

  /** On a list ordered by any ordering (the version order in the source),
      the pick is the greatest version that passes the filter. */
  lemma LatestStableIsGreatest(versions: seq<string>, le: (string, string) -> bool)
    requires SortedBy(versions, le)
    requires LatestStable(versions).Some?
    ensures forall i :: 0 <= i < |versions| && IsStable(versions[i]) ==>
              versions[i] == LatestStable(versions).value || le(versions[i], LatestStable(versions).value)
  {
    LatestStableIsLastSurvivor(versions);
    var r := LatestStable(versions).value;
    var k :| 0 <= k < |versions| && versions[k] == r
             && forall j :: k < j < |versions| ==> !IsStable(versions[j]);
    forall i | 0 <= i < |versions| && IsStable(versions[i])
      ensures versions[i] == r || le(versions[i], r)
    {
      if i != k {
        assert i < k;
      }
    }
  }

  /** A failed request yields no latest stable version, whatever the body. */
  lemma FailedFetchHasNoLatest(code: int, keys: seq<string>)
    requires code != 200
    ensures GetLatestStableVersion(Response(code, keys)) == None
  {
  }

  /** Releases 1.0, 1.1a1 and 1.1: the alpha is skipped and 1.1 is picked. */
  lemma AlphaReleaseIsSkipped()
    ensures GetLatestStableVersion(Response(200, ["1.0", "1.1a1", "1.1"])) == Some("1.1")
  {
    AbsentFirstCharNotContained("1.1", "a");
    AbsentFirstCharNotContained("1.1", "b");
    AbsentFirstCharNotContained("1.1", "rc");
    ContainsChar("1.1a1", 'a');
    assert IsStable("1.1") && !IsStable("1.1a1");
    assert StableVersions(["1.0", "1.1a1", "1.1"]) == StableVersions(["1.0", "1.1a1"]) + ["1.1"];
  }

  /** The filter is literal: a development release passes it. */
  lemma DevReleasePassesFilter()
    ensures IsStable("1.0.dev1")
  {
    AbsentFirstCharNotContained("1.0.dev1", "a");
    AbsentFirstCharNotContained("1.0.dev1", "b");
    AbsentFirstCharNotContained("1.0.dev1", "rc");
  }

  /** The filter is literal: a final version with a local label containing a
      "b" would be dropped (the index itself refuses local labels, so this is
      a fact about the filter, not about a list the index serves). */
  lemma LocalLabelWithLetterIsDropped()
    ensures !IsStable("1.0+ubuntu")
  {
  }

}
