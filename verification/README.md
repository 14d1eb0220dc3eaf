# Azure Stack environment bootstrap (ManageStorageAccount)

This project models the bootstrap that the Azure Stack storage sample runs before it
authenticates. It reads the active-directory settings of an Azure Stack deployment
from the deployment's ARM metadata endpoint. It then builds the eight-entry endpoint
map that registers the deployment as an `AzureEnvironment`.

- `wrappers.dfy`: `Option` and `Result`. A Java exception becomes an `Err` value.
- `java_strings.dfy` (module `JavaStrings`) models the `java.lang.String` operations
  the bootstrap relies on:
  - `indexOf(char)`, which answers -1 when the character is absent;
  - `substring(int)`, which throws `StringIndexOutOfBoundsException` outside `0..length`;
  - `split` with a one-character literal pattern and limit 0. When the pattern does
    not occur, the result is the whole string. Otherwise it is every piece, with the
    trailing empty pieces removed.
- `environment.dfy` (module `StackEnvironment`) models:
  - the metadata request URL;
  - the audience extraction `audiences.split("\"")[1]`;
  - `getActiveDirectorySettings` as a method that builds its settings map one put at a time;
  - the two suffixes taken from the ARM endpoint at its first dot;
  - the environment map built in `main`;
  - the composition of the settings step and the map step (`ResolveEnvironment`).

The HTTP GET is a parameter `fetch` that maps the request URL to a `MetadataResponse`.
A response is its status code together with the strings the JSON library extracts
from the body:
- `galleryEndpoint`;
- `authentication.loginEndpoint`;
- the text of the `authentication.audiences` array;
- `graphEndpoint`.

A `HashMap<String, String>` is a `map<string, string>` that the methods update key by key.

The audience is specified independently of `split` by `FirstQuoted`. `FirstQuoted`
is the text after the first quote, up to the next quote or the end. It exists only
when some character other than a quote follows the first quote. The settings methods
are proved against that definition.

## Model

| member | source | states |
|---|---|---|
| StackEnvironment.MetadataUrl | Hybrid/src/main/java/com/microsoft/azure/management/storage/samples/ManageStorageAccount.java:162 | The request URL is the ARM endpoint followed by "/metadata/endpoints?api-version=1.0", and nothing else. |
| StackEnvironment.MetadataUrlRoundTrip | Hybrid/src/main/java/com/microsoft/azure/management/storage/samples/ManageStorageAccount.java:162 | The ARM endpoint is recovered from its metadata request URL. Any URL from which an endpoint is recovered is that endpoint's metadata URL. |
| StackEnvironment.MetadataUrlInjective | Hybrid/src/main/java/com/microsoft/azure/management/storage/samples/ManageStorageAccount.java:162 | Distinct ARM endpoints are sent to distinct metadata URLs. |
| StackEnvironment.Audience | Hybrid/src/main/java/com/microsoft/azure/management/storage/samples/ManageStorageAccount.java:179 | The chosen audience never contains a quote. When the split has no second element, the failure is an array index exception at index 1. |
| StackEnvironment.AudienceIsFirstQuoted | Hybrid/src/main/java/com/microsoft/azure/management/storage/samples/ManageStorageAccount.java:179 | `split("\"")[1]` succeeds exactly when the first quoted text exists, and then both give the same value. |
| StackEnvironment.FirstQuotedBetweenQuotes | Hybrid/src/main/java/com/microsoft/azure/management/storage/samples/ManageStorageAccount.java:179 | The first quoted text follows the first quote of the audiences text. No quote comes before that first quote. The text itself has no quote and is followed by a quote or the end. |
| StackEnvironment.FirstAudienceChosen | Hybrid/src/main/java/com/microsoft/azure/management/storage/samples/ManageStorageAccount.java:179 | For the audiences array `["a1","a2"]`, the audience is the first entry, `a1`. |
| StackEnvironment.GetActiveDirectorySettings | Hybrid/src/main/java/com/microsoft/azure/management/storage/samples/ManageStorageAccount.java:153-182 | A status other than 200 fails with that status. A 200 response with no quoted audience fails with an array index exception. Otherwise the map binds exactly the four settings keys, to the gallery, login and graph endpoints of the response and to its first quoted audience. |
| StackEnvironment.SettingsKeysDistinct | Hybrid/src/main/java/com/microsoft/azure/management/storage/samples/ManageStorageAccount.java:177-182 | The four settings keys are distinct. |
| StackEnvironment.StorageEndpointSuffix | Hybrid/src/main/java/com/microsoft/azure/management/storage/samples/ManageStorageAccount.java:222 | Succeeds exactly when the endpoint has a dot. The result then starts at the first dot and runs to the end of the endpoint. With no dot, the failure is a string index exception at index -1. |
| StackEnvironment.KeyVaultDnsSuffix | Hybrid/src/main/java/com/microsoft/azure/management/storage/samples/ManageStorageAccount.java:223 | Succeeds exactly when the storage suffix does. The result is then ".adminvault" followed by the storage suffix. Otherwise it fails with the same exception. |
| StackEnvironment.FirstDotSuffixUnique | Hybrid/src/main/java/com/microsoft/azure/management/storage/samples/ManageStorageAccount.java:222 | An endpoint has at most one suffix that starts at its first dot, so the storage suffix is determined by the endpoint. |
| StackEnvironment.ExampleSuffixes | Hybrid/src/main/java/com/microsoft/azure/management/storage/samples/ManageStorageAccount.java:222-223 | `https://x.y.com` gives storage suffix `.y.com` and key-vault suffix `.adminvault.y.com`. |
| StackEnvironment.ExampleNoDot | Hybrid/src/main/java/com/microsoft/azure/management/storage/samples/ManageStorageAccount.java:222-223 | `http://localhost` makes both suffixes throw a string index exception at index -1. |
| StackEnvironment.AzureStackEnvironment | Hybrid/src/main/java/com/microsoft/azure/management/storage/samples/ManageStorageAccount.java:212-225 | Succeeds exactly when the ARM endpoint has a dot, and otherwise fails with a string index exception at -1. On success it binds exactly the eight environment keys: the audience to both the management URL and the AD resource id; the ARM endpoint, gallery, login and graph endpoints to their keys; the first-dot suffix to the storage key; and ".adminvault" plus that suffix to the key-vault key. |
| StackEnvironment.EnvironmentKeysDistinct | Hybrid/src/main/java/com/microsoft/azure/management/storage/samples/ManageStorageAccount.java:216-223 | The eight environment keys are distinct. |
| StackEnvironment.ResolveEnvironment | Hybrid/src/main/java/com/microsoft/azure/management/storage/samples/ManageStorageAccount.java:208-225 | Errors come first-reached-first: the HTTP status, then the missing audience, then the dotless endpoint. The bootstrap succeeds exactly when the status is 200, a quoted audience exists and the endpoint has a dot. It then yields the full eight-entry map in terms of the response and the endpoint. |
| JavaStrings.IndexOf | Hybrid/src/main/java/com/microsoft/azure/management/storage/samples/ManageStorageAccount.java:222 | The answer is -1 or a position in the string that holds the character. |
| JavaStrings.IndexOfAbsent | Hybrid/src/main/java/com/microsoft/azure/management/storage/samples/ManageStorageAccount.java:222 | `indexOf` answers -1 exactly when the character is absent. |
| JavaStrings.IndexOfIsFirst | Hybrid/src/main/java/com/microsoft/azure/management/storage/samples/ManageStorageAccount.java:222 | The character does not occur before the position `indexOf` answers. |
| JavaStrings.Substring | Hybrid/src/main/java/com/microsoft/azure/management/storage/samples/ManageStorageAccount.java:222 | Succeeds exactly for `0 <= begin <= length`, with a result that completes the first `begin` characters to the whole string. A negative `begin` fails with a string index exception at `begin` (the only failure line 222 can reach, since `indexOf` answers at least -1). A `begin` past the end fails with a negative index, which Java 8 reports as `length - begin`. |
| JavaStrings.Pieces | Hybrid/src/main/java/com/microsoft/azure/management/storage/samples/ManageStorageAccount.java:179 | There is always at least one piece. JoinPieces and PiecesOfJoin make it the inverse of joining with the separator. |
| JavaStrings.Split | Hybrid/src/main/java/com/microsoft/azure/management/storage/samples/ManageStorageAccount.java:179 | `split` with limit 0: the whole text when the separator is absent. Otherwise the pieces with the trailing empty pieces dropped: a prefix of the pieces, everything dropped empty, and the last element kept non-empty. |
| JavaStrings.JoinPieces | Hybrid/src/main/java/com/microsoft/azure/management/storage/samples/ManageStorageAccount.java:179 | Rejoining the split pieces with the separator gives back the original text. |
| JavaStrings.PiecesOfJoin | Hybrid/src/main/java/com/microsoft/azure/management/storage/samples/ManageStorageAccount.java:179 | Separator-free pieces are recovered by splitting their join. |
| JavaStrings.PiecesFree | Hybrid/src/main/java/com/microsoft/azure/management/storage/samples/ManageStorageAccount.java:179 | No piece contains the separator. There is a single piece exactly when the separator is absent. |
| JavaStrings.PiecesAllEmpty | Hybrid/src/main/java/com/microsoft/azure/management/storage/samples/ManageStorageAccount.java:179 | Every piece is empty exactly when the text consists of separators only. For non-empty text, this is when `split` returns no elements at all. |
| JavaStrings.DropTrailingEmpty | Hybrid/src/main/java/com/microsoft/azure/management/storage/samples/ManageStorageAccount.java:179 | The result is a prefix of the pieces. Everything dropped is empty, and the result does not end with an empty piece. |
| JavaStrings.SplitSecond | Hybrid/src/main/java/com/microsoft/azure/management/storage/samples/ManageStorageAccount.java:179 | When the separator occurs, the split has a second element exactly when something other than the separator follows the first separator. That element is the text after the first separator, up to the next one. |
| JavaStrings.TextBeforeIsPrefix | Hybrid/src/main/java/com/microsoft/azure/management/storage/samples/ManageStorageAccount.java:179 | The text before the first separator is a separator-free prefix, followed by the separator or the end. |

## Left out

- The HTTP client, the `accept: application/xml` header and reading the response entity. The GET is the `fetch` parameter.
- JSON parsing: the model does not parse the response body. The four strings the bootstrap reads from it are fields of `MetadataResponse`. A missing JSON member (`JSONException`) and an `authentication` value that is not an object (`ClassCastException` at the cast) are not modelled. Whatever `audiences` holds, its `toString()` is the text the model splits.
- The `ClientProtocolException` and `IOException` handlers, which print a stack trace and return an empty map: only `execute` and reading the entity throw these, and both come before the first put. The environment map would then receive `null` values; no transport failure is modelled.
- `new HttpGet` rejects an ARM endpoint that does not form a valid URI (for example one containing a space) with an `IllegalArgumentException`, which reaches `main`'s handler. The model builds the URL as a string and always calls `fetch`, so `ResolveEnvironment` does not capture that failure.
- `StackEnvironment.AzureStackEnvironment`: it requires the four settings keys to be present. The successful settings step guarantees this; `main` would put `null` for a missing key.
- A `null` ARM endpoint (an unset environment variable). `String.format` would produce `null/metadata/...`, and `indexOf` would throw a `NullPointerException`.
- The environment variables, the service-principal authentication, the `Azure` client and `runSample`: these are calls into code that is not part of this model.
- The printing of exception messages in `main`. An error keeps only the exception kind and its index or the HTTP status, not the message text.
- UTF-16 code units: a Dafny `string` is a sequence of Unicode scalar values. A supplementary character is one `char` here and two units in Java, so `IndexOf` positions differ from Java's `indexOf` on such text, and a lone surrogate cannot be represented. The substrings and split pieces taken have the same content, so no modelled result changes.
- No descriptive error for a dotless ARM endpoint: `substring(-1)` throws `StringIndexOutOfBoundsException`, and the model returns `Err(Thrown(StringIndexOutOfBounds(-1)))` as the code does.
