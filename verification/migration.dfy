/** The migration that drops the asset-packagist.org repository from the
    project's Composer configuration, reduced to its list transformation
    and its return values. */
module DropAssetPackagist {
  import opened Wrappers
  import opened Php

  /** The substring that marks the repository to drop. */
  const AssetPackagist := "//asset-packagist.org"

  /** One entry of the `repositories` list; any of its keys may be missing. */
  datatype Repo = Repo(repoType: Option<string>, url: Option<string>)

  /** The Composer configuration: its repositories, and everything else,
      which the migration carries through untouched. */
  datatype Config = Config(repositories: seq<Repo>, rest: map<string, string>)

  /** The configuration document after `safeUp`, whether it was written
      back, whether a warning was logged, and the step's return value. */
  datatype UpResult = UpResult(document: Option<Config>, written: bool, warned: bool, succeeded: bool)

  /** The configuration document after `safeDown`, and the step's return value. */
  datatype DownResult = DownResult(document: Option<Config>, succeeded: bool)

  /** The asset-packagist.org marker occurs somewhere in `url`. */
  ghost predicate MentionsAssetPackagist(url: string) {
    exists j: nat :: OccursAt(url, AssetPackagist, j)
  }

  /** The entry has a `url` key that mentions asset-packagist.org. */
  predicate IsAssetPackagist(r: Repo)
    ensures IsAssetPackagist(r) <==> r.url.Some? && MentionsAssetPackagist(r.url.value)
  {
    if r.url.Some? then ContainsIffOccurs(r.url.value, AssetPackagist); Contains(r.url.value, AssetPackagist)
    else false
  }

  /** How many entries point at asset-packagist.org. */
  function CountMatches(rs: seq<Repo>): (n: nat)
    ensures n <= |rs|
    ensures n == 0 <==> forall i :: 0 <= i < |rs| ==> !IsAssetPackagist(rs[i])
    decreases |rs|
  {
    if |rs| == 0 then 0
    else
      assert forall i :: 1 <= i < |rs| ==> rs[i] == rs[1..][i - 1];
      (if IsAssetPackagist(rs[0]) then 1 else 0) + CountMatches(rs[1..])
  }

  /** The index of the first asset-packagist.org entry, if any. */
  function FirstMatch(rs: seq<Repo>): (r: Option<nat>)
    ensures r.Some? ==> r.value < |rs| && IsAssetPackagist(rs[r.value])
    ensures r.Some? ==> forall j :: 0 <= j < r.value ==> !IsAssetPackagist(rs[j])
    ensures r.None? ==> forall j :: 0 <= j < |rs| ==> !IsAssetPackagist(rs[j])
    decreases |rs|
  {
    if |rs| == 0 then None
    else if IsAssetPackagist(rs[0]) then Some(0)
    else
      var k := FirstMatch(rs[1..]);
      assert forall j :: 1 <= j < |rs| ==> rs[j] == rs[1..][j - 1];
      if k.None? then None else Some(k.value + 1)
  }

  /** `unset($config['repositories'][$key])` followed by `array_merge`,
      which renumbers the remaining entries from 0. */
  function RemoveAt(rs: seq<Repo>, i: nat): (out: seq<Repo>)
    requires i < |rs|
    ensures |out| == |rs| - 1
    ensures forall j :: 0 <= j < i ==> out[j] == rs[j]
    ensures forall j :: i <= j < |out| ==> out[j] == rs[j + 1]
  {
    rs[..i] + rs[i + 1..]
  }

  /** Reference definition: drop the first matching entry, keep the rest. */
  function RemoveFirst(rs: seq<Repo>): seq<Repo>
    decreases |rs|
  {
    if |rs| == 0 then []
    else if IsAssetPackagist(rs[0]) then rs[1..]
    else [rs[0]] + RemoveFirst(rs[1..])
  }

  /** Deleting at the first match is the reference definition, and
      without a match the list is left as it is. */
  lemma {:induction false} RemoveFirstAtFirstMatch(rs: seq<Repo>)
    ensures FirstMatch(rs).None? ==> RemoveFirst(rs) == rs
    ensures FirstMatch(rs).Some? ==> RemoveFirst(rs) == RemoveAt(rs, FirstMatch(rs).value)
    decreases |rs|
  {
    if |rs| > 0 && !IsAssetPackagist(rs[0]) {
      RemoveFirstAtFirstMatch(rs[1..]);
      var k := FirstMatch(rs[1..]);
      if k.Some? {
        assert rs[1..][..k.value] + rs[1..][k.value + 1..] == rs[1..k.value + 1] + rs[k.value + 2..];
        assert [rs[0]] + rs[1..k.value + 1] == rs[..k.value + 1];
      } else {
        assert [rs[0]] + rs[1..] == rs;
      }
    } else if |rs| > 0 {
      assert RemoveAt(rs, 0) == rs[1..];
    }
  }

  /** Exactly one match disappears and the list shrinks by one. */
  lemma {:induction false} RemoveFirstCounts(rs: seq<Repo>)
    requires CountMatches(rs) > 0
    ensures |RemoveFirst(rs)| == |rs| - 1
    ensures CountMatches(RemoveFirst(rs)) == CountMatches(rs) - 1
    decreases |rs|
  {
    if !IsAssetPackagist(rs[0]) {
      RemoveFirstCounts(rs[1..]);
      var tail := RemoveFirst(rs[1..]);
      assert ([rs[0]] + tail)[0] == rs[0];
      assert ([rs[0]] + tail)[1..] == tail;
    }
  }

  /** Every entry that does not match keeps its multiplicity. */
  lemma {:induction false} RemoveFirstKeepsOthers(rs: seq<Repo>, x: Repo)
    requires !IsAssetPackagist(x)
    ensures multiset(RemoveFirst(rs))[x] == multiset(rs)[x]
    decreases |rs|
  {
    if |rs| > 0 {
      assert rs == [rs[0]] + rs[1..];
      if !IsAssetPackagist(rs[0]) {
        RemoveFirstKeepsOthers(rs[1..], x);
      }
    }
  }

  /** An entry with no `url` key is never dropped. */
  lemma UrlLessEntriesKept(rs: seq<Repo>, x: Repo)
    requires x.url.None?
    ensures multiset(RemoveFirst(rs))[x] == multiset(rs)[x]
  {
    RemoveFirstKeepsOthers(rs, x);
  }

  /** The `foreach` over the repositories with its `break`: remove the
      first matching entry and report whether the file gets written. */
  method DropFirstMatch(rs: seq<Repo>) returns (out: seq<Repo>, written: bool)
    ensures written <==> CountMatches(rs) > 0
    ensures !written ==> out == rs
    ensures written ==> out == RemoveFirst(rs)
  {
    out, written := rs, false;
    var key := 0;
    while key < |rs|
      invariant 0 <= key <= |rs|
      invariant forall j :: 0 <= j < key ==> !IsAssetPackagist(rs[j])
      decreases |rs| - key
    {
      if IsAssetPackagist(rs[key]) {
        out := rs[..key] + rs[key + 1..];
        written := true;
        break;
      }
      key := key + 1;
    }
    RemoveFirstAtFirstMatch(rs);
    if !written {
      assert CountMatches(rs) == 0;
    } else {
      assert FirstMatch(rs) == Some(key);
    }
  }

  /** `safeUp()`: warn and succeed when there is no composer.json; otherwise
      drop the first asset-packagist.org entry, writing the file back only
      when one was found; always succeed. */
  function SafeUp(doc: Option<Config>): (r: UpResult)
    ensures r.succeeded
    ensures doc.None? ==> r.document.None? && r.warned && !r.written
    ensures doc.Some? ==> !r.warned && r.document.Some? && r.document.value.rest == doc.value.rest
    ensures doc.Some? ==> (r.written <==> CountMatches(doc.value.repositories) > 0)
    ensures !r.written ==> r.document == doc
    ensures r.written ==> r.document.value.repositories == RemoveFirst(doc.value.repositories)
  {
    match doc
    case None => UpResult(None, false, true, true)
    case Some(config) =>
      var rs := config.repositories;
      RemoveFirstAtFirstMatch(rs);
      match FirstMatch(rs)
      case None => UpResult(doc, false, false, true)
      case Some(i) => UpResult(Some(config.(repositories := RemoveAt(rs, i))), true, false, true)
  }

  /** `safeDown()`: the migration cannot be reverted; it reports failure
      and leaves the document alone. */
  function SafeDown(doc: Option<Config>): (r: DownResult)
    ensures !r.succeeded
    ensures r.document == doc
  {
    DownResult(doc, false)
  }

  /** With at most one match, running the migration again changes nothing
      and writes nothing. */
  lemma SafeUpIdempotent(doc: Option<Config>)
    requires doc.Some? ==> CountMatches(doc.value.repositories) <= 1
    ensures SafeUp(SafeUp(doc).document).document == SafeUp(doc).document
    ensures !SafeUp(SafeUp(doc).document).written
  {
    if doc.Some? && CountMatches(doc.value.repositories) == 1 {
      RemoveFirstCounts(doc.value.repositories);
    }
  }

  /** With two or more matches the `break` leaves one behind: a second run
      drops another entry and writes again. */
  lemma SafeUpNotIdempotent(doc: Option<Config>)
    requires doc.Some? && CountMatches(doc.value.repositories) >= 2
    ensures SafeUp(SafeUp(doc).document).written
    ensures |SafeUp(SafeUp(doc).document).document.value.repositories|
      == |SafeUp(doc).document.value.repositories| - 1
  {
    RemoveFirstCounts(doc.value.repositories);
    RemoveFirstCounts(SafeUp(doc).document.value.repositories);
  }

  /** Two asset-packagist.org entries: a run drops only the first, and the
      second is still there to match. */
  lemma TwoMatchesExample(rest: map<string, string>)
    ensures
      var a := Repo(Some("composer"), Some(AssetPackagist));
      var b := Repo(None, Some(AssetPackagist + "/x"));
      var r := SafeUp(Some(Config([a, b], rest)));
      && r.written
      && r.document == Some(Config([b], rest))
      && IsAssetPackagist(b)
  {
    var a := Repo(Some("composer"), Some(AssetPackagist));
    var b := Repo(None, Some(AssetPackagist + "/x"));
    assert OccursAt(a.url.value, AssetPackagist, 0);
    ContainsIffOccurs(a.url.value, AssetPackagist);
    assert (AssetPackagist + "/x")[..|AssetPackagist|] == AssetPackagist;
    assert OccursAt(b.url.value, AssetPackagist, 0);
    ContainsIffOccurs(b.url.value, AssetPackagist);
    assert [a, b][1..] == [b];
  }
}
