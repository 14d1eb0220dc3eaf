/**
 * Bootstrap of the Azure Stack cloud environment in ManageStorageAccount:
 * the metadata request URL, the active-directory settings read from the
 * metadata response, and the eight-entry environment map built from the ARM
 * endpoint and those settings.
 *
 * The HTTP GET is a parameter `fetch` from request URL to response; a
 * response is its status code together with the strings the JSON library
 * extracts from its body.
 */
module StackEnvironment {
  import opened Wrappers
  import opened JavaStrings

  /** The path and query appended to the ARM endpoint to reach its metadata. */
  const MetadataPath: string := "/metadata/endpoints?api-version=1.0"

  // Keys of the active-directory settings map.
  const GalleryEndpointKey: string := "galleryEndpoint"
  const LoginEndpointKey: string := "login_endpoint"
  const AudienceKey: string := "audience"
  const GraphEndpointKey: string := "graphEndpoint"
  const SettingsKeys: set<string> := {GalleryEndpointKey, LoginEndpointKey, AudienceKey, GraphEndpointKey}

  // Keys of the environment map handed to AzureEnvironment.
  const ManagementEndpointUrlKey: string := "managementEndpointUrl"
  const ResourceManagerEndpointUrlKey: string := "resourceManagerEndpointUrl"
  const GalleryEndpointUrlKey: string := "galleryEndpointUrl"
  const ActiveDirectoryEndpointUrlKey: string := "activeDirectoryEndpointUrl"
  const ActiveDirectoryResourceIdKey: string := "activeDirectoryResourceId"
  const ActiveDirectoryGraphResourceIdKey: string := "activeDirectoryGraphResourceId"
  const StorageEndpointSuffixKey: string := "storageEndpointSuffix"
  const KeyVaultDnsSuffixKey: string := "keyVaultDnsSuffix"
  const EnvironmentKeys: set<string> := {
    ManagementEndpointUrlKey, ResourceManagerEndpointUrlKey, GalleryEndpointUrlKey,
    ActiveDirectoryEndpointUrlKey, ActiveDirectoryResourceIdKey,
    ActiveDirectoryGraphResourceIdKey, StorageEndpointSuffixKey, KeyVaultDnsSuffixKey}

  /** The prefix of the key-vault DNS suffix. */
  const AdminVault: string := ".adminvault"

  /**
   * What the bootstrap reads from the metadata endpoint: the HTTP status and,
   * from the JSON body, `galleryEndpoint`, `authentication.loginEndpoint`,
   * the serialised `authentication.audiences` array and `graphEndpoint`.
   */
  datatype MetadataResponse = MetadataResponse(
    statusCode: int,
    galleryEndpoint: string,
    loginEndpoint: string,
    audiences: string,
    graphEndpoint: string)

  /** Why the bootstrap stopped: a non-200 status, or an exception from a String or array operation. */
  datatype BootstrapError =
    | HttpError(statusCode: int)
    | Thrown(exception: StringException)

  // ---------------------------------------------------------------- request URL

  /** The metadata request URL: the ARM endpoint followed by the metadata path. */
  function MetadataUrl(armEndpoint: string): (url: string)
    ensures |url| == |armEndpoint| + |MetadataPath|
    ensures url[..|armEndpoint|] == armEndpoint && url[|armEndpoint|..] == MetadataPath
  {
    armEndpoint + MetadataPath
  }

  /** Recovers the ARM endpoint from a metadata request URL. */
  function EndpointOfMetadataUrl(url: string): Option<string>
  {
    if |MetadataPath| <= |url| && url[|url| - |MetadataPath|..] == MetadataPath
    then Some(url[..|url| - |MetadataPath|])
    else None
  }

  /** The ARM endpoint is recovered from its metadata URL, and only a metadata URL yields one. */
  lemma MetadataUrlRoundTrip(armEndpoint: string, url: string)
    ensures EndpointOfMetadataUrl(MetadataUrl(armEndpoint)) == Some(armEndpoint)
    ensures EndpointOfMetadataUrl(url).Some? ==> MetadataUrl(EndpointOfMetadataUrl(url).value) == url
  {
  }

  /** Two endpoints with the same metadata URL are the same endpoint. */
  lemma MetadataUrlInjective(a: string, b: string)
    requires MetadataUrl(a) == MetadataUrl(b)
    ensures a == b
  {
    MetadataUrlRoundTrip(a, MetadataUrl(a));
    MetadataUrlRoundTrip(b, MetadataUrl(b));
  }

  // ---------------------------------------------------------------- audience

  /**
   * `audiences.split("\"")[1]`: the second element of the split, which fails
   * with an array index exception when the split has fewer than two elements.
   */
  function Audience(audiences: string): (r: Result<string, StringException>)
    ensures r.Ok? ==> '"' !in r.value
    ensures r.Err? ==> r.error == ArrayIndexOutOfBounds(1)
  {
    var parts := Split(audiences, '"');
    PiecesFree(audiences, '"');
    if |parts| > 1 then Ok(parts[1]) else Err(ArrayIndexOutOfBounds(1))
  }

  /**
   * The text after the first quote of `t` up to the next quote or the end,
   * provided some character other than a quote follows the first quote.
   */
  function FirstQuoted(t: string): Option<string>
  {
    var i := IndexOf(t, '"');
    if i < 0 then None
    else
      var rest := t[i + 1..];
      if OnlyChar(rest, '"') then None else Some(TextBefore(rest, '"'))
  }

  /** The first quoted text sits between the first quote and the next quote or the end. */
  lemma FirstQuotedBetweenQuotes(t: string, a: string)
    requires FirstQuoted(t) == Some(a)
    ensures var i := IndexOf(t, '"');
      && 0 <= i && i + 1 + |a| <= |t|
      && t == t[..i] + ['"'] + a + t[i + 1 + |a|..]
      && '"' !in t[..i]
      && '"' !in a
      && (i + 1 + |a| == |t| || t[i + 1 + |a|] == '"')
  {
    var i := IndexOf(t, '"');
    var rest := t[i + 1..];
    assert '"' !in t[..i] by { IndexOfIsFirst(t, '"'); }
    assert |a| <= |rest| && rest[..|a|] == a && '"' !in a && (|a| == |rest| || rest[|a|] == '"') by {
      TextBeforeIsPrefix(rest, '"');
    }
    PlacedAfter(t, i, a);
  }

  /** A prefix `a` of what follows the quote at `i`, read back at its place in `t`. */
  lemma PlacedAfter(t: string, i: int, a: string)
    requires 0 <= i < |t| && t[i] == '"'
    requires var rest := t[i + 1..];
      |a| <= |rest| && rest[..|a|] == a && (|a| == |rest| || rest[|a|] == '"')
    ensures i + 1 + |a| <= |t|
    ensures t == t[..i] + ['"'] + a + t[i + 1 + |a|..]
    ensures i + 1 + |a| == |t| || t[i + 1 + |a|] == '"'
  {
  }

  /** The audience is exactly the first quoted text: it exists when that does, and they agree. */
  lemma AudienceIsFirstQuoted(t: string)
    ensures Audience(t).Ok? <==> FirstQuoted(t).Some?
    ensures Audience(t).Ok? ==> Audience(t).value == FirstQuoted(t).value
  {
    IndexOfAbsent(t, '"');
    if '"' in t {
      SplitSecond(t, '"');
    }
  }

  /** With two audiences, the first is chosen. */
  lemma FirstAudienceChosen()
    ensures Audience("[\"a1\",\"a2\"]") == Ok("a1")
  {
    var rest := "a1" + ['"'] + ",\"a2\"]";
    var t := "[" + ['"'] + rest;
    assert t == "[\"a1\",\"a2\"]";
    IndexOfAfterFree("[", '"', rest);
    assert t[2..] == rest;
    IndexOfAfterFree("a1", '"', ",\"a2\"]");
    assert !OnlyChar(rest, '"') by { assert rest[0] == 'a'; }
    assert TextBefore(rest, '"') == "a1";
    AudienceIsFirstQuoted(t);
  }

  // ---------------------------------------------------------------- settings

  /**
   * getActiveDirectorySettings: fetch the metadata URL; a status other than
   * 200 throws; otherwise the four settings are put one at a time, the
   * audience split throwing when the audiences text has no second element.
   */
  method GetActiveDirectorySettings(armEndpoint: string, fetch: string -> MetadataResponse)
    returns (r: Result<map<string, string>, BootstrapError>)
    ensures var response := fetch(MetadataUrl(armEndpoint));
      var audience := FirstQuoted(response.audiences);
      && (response.statusCode != 200 ==> r == Err(HttpError(response.statusCode)))
      && (response.statusCode == 200 && audience.None? ==> r == Err(Thrown(ArrayIndexOutOfBounds(1))))
      && (r.Ok? <==> response.statusCode == 200 && audience.Some?)
      && (r.Ok? ==>
            && r.value.Keys == SettingsKeys
            && r.value[GalleryEndpointKey] == response.galleryEndpoint
            && r.value[LoginEndpointKey] == response.loginEndpoint
            && r.value[AudienceKey] == audience.value
            && r.value[GraphEndpointKey] == response.graphEndpoint)
  {
    var adSettings: map<string, string> := map[];
    var response := fetch(MetadataUrl(armEndpoint));
    if response.statusCode != 200 {
      return Err(HttpError(response.statusCode));
    }
    adSettings := adSettings[GalleryEndpointKey := response.galleryEndpoint];
    var audience := Audience(response.audiences);
    AudienceIsFirstQuoted(response.audiences);
    if audience.Err? {
      return Err(Thrown(audience.error));
    }
    adSettings := adSettings[LoginEndpointKey := response.loginEndpoint];
    adSettings := adSettings[AudienceKey := audience.value];
    adSettings := adSettings[GraphEndpointKey := response.graphEndpoint];
    return Ok(adSettings);
  }

  /** The settings keys are four distinct strings. */
  lemma SettingsKeysDistinct()
    ensures |SettingsKeys| == 4
  {
  }

  // ---------------------------------------------------------------- derived suffixes

  /** `suffix` is the part of `armEndpoint` that starts at its first dot. */
  predicate IsFirstDotSuffix(armEndpoint: string, suffix: string)
  {
    && 0 < |suffix| <= |armEndpoint|
    && suffix[0] == '.'
    && armEndpoint[|armEndpoint| - |suffix|..] == suffix
    && '.' !in armEndpoint[..|armEndpoint| - |suffix|]
  }

  /** An endpoint has at most one suffix starting at its first dot. */
  lemma FirstDotSuffixUnique(armEndpoint: string, s1: string, s2: string)
    requires IsFirstDotSuffix(armEndpoint, s1) && IsFirstDotSuffix(armEndpoint, s2)
    ensures s1 == s2
  {
  }

  /** `armEndpoint.substring(armEndpoint.indexOf('.'))`. */
  function StorageEndpointSuffix(armEndpoint: string): (r: Result<string, StringException>)
    ensures r.Ok? <==> '.' in armEndpoint
    ensures r.Ok? ==> IsFirstDotSuffix(armEndpoint, r.value)
    ensures r.Err? ==> r.error == StringIndexOutOfBounds(-1)
  {
    IndexOfAbsent(armEndpoint, '.');
    IndexOfIsFirst(armEndpoint, '.');
    Substring(armEndpoint, IndexOf(armEndpoint, '.'))
  }

  /**
   * `".adminvault" + armEndpoint.substring(armEndpoint.indexOf('.'))`: the
   * storage endpoint suffix behind the ".adminvault" label, failing exactly
   * when that suffix does.
   */
  function KeyVaultDnsSuffix(armEndpoint: string): (r: Result<string, StringException>)
    ensures r.Ok? <==> StorageEndpointSuffix(armEndpoint).Ok?
    ensures r.Ok? ==> r.value == AdminVault + StorageEndpointSuffix(armEndpoint).value
    ensures r.Err? ==> r.error == StorageEndpointSuffix(armEndpoint).error
  {
    match Substring(armEndpoint, IndexOf(armEndpoint, '.'))
    case Ok(suffix) => Ok(AdminVault + suffix)
    case Err(e) => Err(e)
  }

  /** The derived suffixes of an endpoint with a dot. */
  lemma ExampleSuffixes()
    ensures StorageEndpointSuffix("https://x.y.com") == Ok(".y.com")
    ensures KeyVaultDnsSuffix("https://x.y.com") == Ok(".adminvault.y.com")
  {
    var host := "https://x";
    var domain := "y.com";
    assert forall j :: 0 <= j < |host| ==> host[j] != '.';
    IndexOfAfterFree(host, '.', domain);
    var arm := host + ['.'] + domain;
    assert arm[|host|..] == ['.'] + domain;
    assert ['.'] + domain == ".y.com";
    assert arm == "https://x.y.com";
    assert AdminVault + ".y.com" == ".adminvault.y.com";
  }

  /** An endpoint without a dot makes both derivations throw. */
  lemma ExampleNoDot()
    ensures StorageEndpointSuffix("http://localhost") == Err(StringIndexOutOfBounds(-1))
    ensures KeyVaultDnsSuffix("http://localhost") == Err(StringIndexOutOfBounds(-1))
  {
    var arm := "http://localhost";
    assert forall j :: 0 <= j < |arm| ==> arm[j] != '.';
    assert '.' !in arm;
  }

  // ---------------------------------------------------------------- environment map

  /**
   * The map built in main for AzureEnvironment: eight puts, the last two
   * slicing the ARM endpoint at its first dot, which throws when there is none.
   */
  method AzureStackEnvironment(armEndpoint: string, settings: map<string, string>)
    returns (r: Result<map<string, string>, BootstrapError>)
    requires SettingsKeys <= settings.Keys
    ensures r.Ok? <==> '.' in armEndpoint
    ensures r.Err? ==> r.error == Thrown(StringIndexOutOfBounds(-1))
    ensures r.Ok? ==>
      && r.value.Keys == EnvironmentKeys
      && r.value[ManagementEndpointUrlKey] == settings[AudienceKey]
      && r.value[ResourceManagerEndpointUrlKey] == armEndpoint
      && r.value[GalleryEndpointUrlKey] == settings[GalleryEndpointKey]
      && r.value[ActiveDirectoryEndpointUrlKey] == settings[LoginEndpointKey]
      && r.value[ActiveDirectoryResourceIdKey] == settings[AudienceKey]
      && r.value[ActiveDirectoryGraphResourceIdKey] == settings[GraphEndpointKey]
      && IsFirstDotSuffix(armEndpoint, r.value[StorageEndpointSuffixKey])
      && r.value[KeyVaultDnsSuffixKey] == AdminVault + r.value[StorageEndpointSuffixKey]
  {
    var env: map<string, string> := map[];
    env := env[ManagementEndpointUrlKey := settings[AudienceKey]];
    env := env[ResourceManagerEndpointUrlKey := armEndpoint];
    env := env[GalleryEndpointUrlKey := settings[GalleryEndpointKey]];
    env := env[ActiveDirectoryEndpointUrlKey := settings[LoginEndpointKey]];
    env := env[ActiveDirectoryResourceIdKey := settings[AudienceKey]];
    env := env[ActiveDirectoryGraphResourceIdKey := settings[GraphEndpointKey]];
    var storage := StorageEndpointSuffix(armEndpoint);
    if storage.Err? {
      return Err(Thrown(storage.error));
    }
    env := env[StorageEndpointSuffixKey := storage.value];
    var keyVault := KeyVaultDnsSuffix(armEndpoint);
    env := env[KeyVaultDnsSuffixKey := keyVault.value];
    EnvironmentPutsKeys(settings[AudienceKey], armEndpoint, settings[GalleryEndpointKey],
      settings[LoginEndpointKey], settings[AudienceKey], settings[GraphEndpointKey],
      storage.value, keyVault.value);
    return Ok(env);
  }

  /** The eight puts of the environment map, in order, bind exactly the environment keys. */
  lemma EnvironmentPutsKeys(a: string, b: string, c: string, d: string, e: string, f: string, g: string, h: string)
    ensures map[][ManagementEndpointUrlKey := a][ResourceManagerEndpointUrlKey := b]
              [GalleryEndpointUrlKey := c][ActiveDirectoryEndpointUrlKey := d]
              [ActiveDirectoryResourceIdKey := e][ActiveDirectoryGraphResourceIdKey := f]
              [StorageEndpointSuffixKey := g][KeyVaultDnsSuffixKey := h].Keys == EnvironmentKeys
  {
  }

  /** The environment keys are eight distinct strings. */
  lemma EnvironmentKeysDistinct()
    ensures |EnvironmentKeys| == 8
  {
  }

  /**
   * The bootstrap in main: read the settings from the metadata endpoint, then
   * build the environment map from them and the ARM endpoint.
   */
  method ResolveEnvironment(armEndpoint: string, fetch: string -> MetadataResponse)
    returns (r: Result<map<string, string>, BootstrapError>)
    ensures var response := fetch(MetadataUrl(armEndpoint));
      var audience := FirstQuoted(response.audiences);
      && (response.statusCode != 200 ==> r == Err(HttpError(response.statusCode)))
      && (response.statusCode == 200 && audience.None? ==> r == Err(Thrown(ArrayIndexOutOfBounds(1))))
      && (response.statusCode == 200 && audience.Some? && '.' !in armEndpoint ==>
            r == Err(Thrown(StringIndexOutOfBounds(-1))))
      && (r.Ok? <==> response.statusCode == 200 && audience.Some? && '.' in armEndpoint)
      && (r.Ok? ==>
            && r.value.Keys == EnvironmentKeys
            && r.value[ManagementEndpointUrlKey] == audience.value
            && r.value[ResourceManagerEndpointUrlKey] == armEndpoint
            && r.value[GalleryEndpointUrlKey] == response.galleryEndpoint
            && r.value[ActiveDirectoryEndpointUrlKey] == response.loginEndpoint
            && r.value[ActiveDirectoryResourceIdKey] == audience.value
            && r.value[ActiveDirectoryGraphResourceIdKey] == response.graphEndpoint
            && IsFirstDotSuffix(armEndpoint, r.value[StorageEndpointSuffixKey])
            && r.value[KeyVaultDnsSuffixKey] == AdminVault + r.value[StorageEndpointSuffixKey])
  {
    var settings := GetActiveDirectorySettings(armEndpoint, fetch);
    if settings.Err? {
      return Err(settings.error);
    }
    r := AzureStackEnvironment(armEndpoint, settings.value);
  }
}
