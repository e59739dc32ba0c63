/**
 * Release and asset resolution (getAmagationZipUrl): find the pinned release in
 * an already-parsed release list and pick the URL of its amalgamation asset.
 */
module Resolve {
  import opened Wrappers
  import opened Text

  /** One downloadable file of a release. */
  datatype Asset = Asset(name: string, browserDownloadUrl: string)

  /** One published release: its tag and its assets, in the order listed. */
  datatype Release = Release(tagName: string, assets: seq<Asset>)

  /** Why resolution ends the run. */
  datatype ResolveError = VersionNotFound

  /** The pinned release tag. */
  const McVersion: string := "v1.3.4"

  /** The text an asset name must contain to be the amalgamation. */
  const AmalgamationMarker: string := "-amalgamation"

  predicate IsAmalgamation(a: Asset)
  {
    Contains(a.name, AmalgamationMarker)
  }

  /** Index of the first release tagged `tag`, if any. */
  function FindRelease(items: seq<Release>, tag: string): (r: Option<nat>)
    ensures r.Some? ==> r.value < |items| && items[r.value].tagName == tag
    ensures r.Some? ==> forall j :: 0 <= j < r.value ==> items[j].tagName != tag
    ensures r.None? <==> forall j :: 0 <= j < |items| ==> items[j].tagName != tag
  {
    if items == [] then None
    else if items[0].tagName == tag then Some(0)
    else
      match FindRelease(items[1..], tag)
      case None => None
      case Some(k) => Some(k + 1)
  }

  /** Index of the last amalgamation asset, if any. */
  function LastAmalgamation(assets: seq<Asset>): (r: Option<nat>)
    ensures r.Some? ==> r.value < |assets| && IsAmalgamation(assets[r.value])
    ensures r.Some? ==> forall j :: r.value < j < |assets| ==> !IsAmalgamation(assets[j])
    ensures r.None? <==> forall j :: 0 <= j < |assets| ==> !IsAmalgamation(assets[j])
  {
    if assets == [] then None
    else if IsAmalgamation(assets[|assets| - 1]) then Some(|assets| - 1)
    else LastAmalgamation(assets[..|assets| - 1])
  }

  /** The URL the asset scan settles on: the last match's, or "" when nothing matches. */
  function AmalgamationUrl(assets: seq<Asset>): string
  {
    match LastAmalgamation(assets)
    case None => ""
    case Some(k) => assets[k].browserDownloadUrl
  }

  /** Resolution as a whole: the pinned release must exist; its asset scan may still give "". */
  function ResolveUrl(items: seq<Release>): Result<string, ResolveError>
  {
    match FindRelease(items, McVersion)
    case None => Err(VersionNotFound)
    case Some(k) => Ok(AmalgamationUrl(items[k].assets))
  }

  /**
   * The two loops of getAmagationZipUrl: the first stops at the first release
   * with the pinned tag, the second visits every asset and keeps overwriting
   * the selected URL.
   */
  method GetAmalgamationZipUrl(items: seq<Release>) returns (r: Result<string, ResolveError>)
    ensures r == ResolveUrl(items)
    ensures r.Err? <==> forall j :: 0 <= j < |items| ==> items[j].tagName != McVersion
  {
    var asset: Option<seq<Asset>> := None;
    var i := 0;
    while i < |items|
      invariant 0 <= i <= |items|
      invariant asset.None?
      invariant forall j :: 0 <= j < i ==> items[j].tagName != McVersion
    {
      if items[i].tagName == McVersion {
        asset := Some(items[i].assets);
        break;
      }
      i := i + 1;
    }

    if asset.None? {
      return Err(VersionNotFound);
    }
    assert FindRelease(items, McVersion) == Some(i);

    var assets := asset.value;
    var downloadUrl := "";
    for k := 0 to |assets|
      invariant downloadUrl == AmalgamationUrl(assets[..k])
    {
      AmalgamationUrlSnoc(assets[..k], assets[k]);
      assert assets[..k] + [assets[k]] == assets[..k + 1];
      if Contains(assets[k].name, AmalgamationMarker) {
        downloadUrl := assets[k].browserDownloadUrl;
      }
    }
    assert assets[..|assets|] == assets;
    return Ok(downloadUrl);
  }

  /** Visiting one more asset: a match replaces the URL, a non-match keeps it. */
  lemma AmalgamationUrlSnoc(assets: seq<Asset>, a: Asset)
    ensures AmalgamationUrl(assets + [a])
         == if IsAmalgamation(a) then a.browserDownloadUrl else AmalgamationUrl(assets)
  {
    assert (assets + [a])[..|assets|] == assets;
  }

  /** With no amalgamation asset the URL is the empty string: the scan does not fail. */
  lemma AmalgamationUrlNoMatch(assets: seq<Asset>)
    requires forall j :: 0 <= j < |assets| ==> !IsAmalgamation(assets[j])
    ensures AmalgamationUrl(assets) == ""
  {
  }

  /** The URL comes from the last matching asset: every earlier match is overwritten. */
  lemma AmalgamationUrlLastWins(assets: seq<Asset>, k: nat)
    requires k < |assets| && IsAmalgamation(assets[k])
    requires forall j :: k < j < |assets| ==> !IsAmalgamation(assets[j])
    ensures AmalgamationUrl(assets) == assets[k].browserDownloadUrl
  {
    var r := LastAmalgamation(assets);
    assert r.Some?;
    if r.value < k {
    } else if r.value > k {
    }
  }

  /** Assets appended after a match can only change the URL if one of them matches. */
  lemma {:induction false} AmalgamationUrlAppendNoMatch(assets: seq<Asset>, later: seq<Asset>)
    requires forall j :: 0 <= j < |later| ==> !IsAmalgamation(later[j])
    ensures AmalgamationUrl(assets + later) == AmalgamationUrl(assets)
    decreases |later|
  {
    if later == [] {
      assert assets + later == assets;
    } else {
      var front := later[..|later| - 1];
      AmalgamationUrlAppendNoMatch(assets, front);
      assert assets + later == (assets + front) + [later[|later| - 1]];
      AmalgamationUrlSnoc(assets + front, later[|later| - 1]);
    }
  }

  /** The first release carrying the pinned tag is the one whose assets are scanned. */
  lemma ResolveSelectsFirst(items: seq<Release>, k: nat)
    requires k < |items| && items[k].tagName == McVersion
    requires forall j :: 0 <= j < k ==> items[j].tagName != McVersion
    ensures ResolveUrl(items) == Ok(AmalgamationUrl(items[k].assets))
  {
    var r := FindRelease(items, McVersion);
    assert r.Some?;
    if r.value < k {
    } else if r.value > k {
    }
  }

  /** Releases listed after a pinned one never matter, whatever their tags. */
  lemma {:induction false} ResolveIgnoresLater(items: seq<Release>, later: seq<Release>)
    requires exists j :: 0 <= j < |items| && items[j].tagName == McVersion
    ensures ResolveUrl(items + later) == ResolveUrl(items)
  {
    var k := FindRelease(items, McVersion).value;
    assert (items + later)[k] == items[k];
    ResolveSelectsFirst(items + later, k);
  }

  /** There is no fallback: without the pinned tag resolution fails, whatever else is listed. */
  lemma ResolveFailsWithoutVersion(items: seq<Release>)
    ensures ResolveUrl(items).Err? <==> forall j :: 0 <= j < |items| ==> items[j].tagName != McVersion
  {
  }

  /** Of two assets whose names both contain the marker, the later one is chosen. */
  lemma LaterAmalgamationChosen(first: string, second: string)
    ensures ResolveUrl([Release(McVersion, [
              Asset("v1-amalgamation.zip", first),
              Asset("v1-amalgamation-full.zip", second)])]) == Ok(second)
  {
    var assets := [Asset("v1-amalgamation.zip", first), Asset("v1-amalgamation-full.zip", second)];
    var name := assets[1].name;
    assert name == "v1" + AmalgamationMarker + "-full.zip";
    assert name[2..2 + |AmalgamationMarker|] == AmalgamationMarker;
    assert OccursAt(name, AmalgamationMarker, 2);
    ContainsIffOccurs(assets[1].name, AmalgamationMarker);
    AmalgamationUrlLastWins(assets, 1);
  }
}
