# PublishSettings — a verified model

This project models the core of `PublishSettings`, the class that reads a Web
Deploy publish-settings document and turns it into the settings for a
deployment. The class does two things:

* **Profile extraction.** `Load` looks up the `publishProfile` of a site. From
  that profile and its following siblings it takes the first whose
  `publishMethod` is MSDeploy. It folds that element's attributes into the
  object's fields, keeps unrecognised attributes in an "other attributes" bag,
  and fills a case-insensitive dictionary of databases (`AddDatabases`).
* **Endpoint normalisation.** Three static helpers turn a raw publish URL into
  a Web Management Service URL:
  * `InsertPortIfNotSpecified` adds the default port `:8172`;
  * `AppendHandlerIfNotSpecified` adds the `msdeploy.axd` handler;
  * `GetWmsvcUrl` adds the `https://` scheme and the `?site=` query.

  Two getters compute and cache values on first use. `ComputerName`
  dispatches on the remote agent. `AuthenticationType` resolves the
  tri-state `useNTLM` and the agent into `"basic"` or `"ntlm"`.

Files:

* `strings.dfy` holds two modules:
  * `Wrappers` (`Option`, `Result`);
  * `Strings`, the .NET string operations the code relies on (ordinal
    ignore-case comparison, `IndexOf`, `Insert`, `Split`, `Join`).
* `endpoint.dfy` (`Endpoint`) holds:
  * the `PublishSettingsRemoteAgent` enum;
  * the three pure URL helpers and their properties;
  * the values the two getters cache.
* `profile.dfy` (`Profile`) holds:
  * the document as a tree of elements;
  * the attribute fold, the database dictionary and the profile search;
  * `LoadResult`, the outcome of a whole `Load` call as a function of the state before it.
* `publish_settings.dfy` (`Publishing`) holds:
  * the `PublishSettings` class with the source's fields;
  * `Load`, whose loops mirror the source, together with `AddDatabases` and the two memoising getters;
  * the `Databases` dictionary as a class.

  Each method is proved against the functions of `Profile` and `Endpoint`.

Modelling choices:

* **Exceptions.** An exception is an error result (`LoadError`). Fields written
  before the exception keep their new values, as they do in the running object.
* **The databases dictionary.** It is a `map` keyed by the ASCII case-folded name,
  so that two names equal under the `OrdinalIgnoreCase` comparer share one key.
  The .NET dictionary keeps each key as first written; in the model that key is
  the stored record's `name`, and `KeyedByName` ties it to the folded map key.
* **Non-element nodes.** A text or comment node is a node with the empty name and
  no attributes or children; a processing instruction is a node named by its
  target, with none either. The name tests and `GetAttribute` then treat them as
  the navigator does: an `<?add ?>` inside `<databases>` passes the `add` test
  and is refused for its missing name.
* **The other-attributes bag.** `OtherAttributes` is a sequence of name/value
  pairs in document order.

Where the code and the intended behaviour differ, the model follows the code:

* The sibling scan does not re-check `originalsitename`. It takes the first
  MSDeploy profile among the site's first profile and *all* following siblings,
  whatever their site.
* When no profile matches the site, `Load` returns without appending a parse error.
* Every `databases` child of the profile is read into the same dictionary, not
  only the first.
* `publishMethod` is looked up with its exact case when selecting the profile,
  but is skipped ignoring case in the attribute loop.

## Model

| member | source | states |
|---|---|---|
| Endpoint.ParseAgentType | Helpers/PublishSettings.cs:130-142 | the parsed agent is exactly the enum member whose name equals the value ignoring case; no agent when none matches |
| Endpoint.InsertPortIfNotSpecified | Helpers/PublishSettings.cs:501-541 | the port rule; what it yields in each case is stated by `InsertPortCases`, `InsertPortWithoutColon` and `InsertPortWithColon` |
| Endpoint.InsertPortCases | Helpers/PublishSettings.cs:501-541 | the three cases of the port rule: the port goes before the first '/' when it precedes every ':'; it is appended when there is neither ':' nor '/'; otherwise the URL is unchanged |
| Endpoint.InsertPortWithoutColon | Helpers/PublishSettings.cs:505-518 | a URL without ':' gets the port before its first '/', or at its end |
| Endpoint.InsertPortWithColon | Helpers/PublishSettings.cs:520-538 | a URL with a ':' gets the port before the first '/' only when that '/' lies in the text before the first ':'; the text after it is kept exactly |
| Strings.JoinSplit | Helpers/PublishSettings.cs:503-537 | splitting on ':' and re-joining with ':' gives the string back |
| Strings.JoinReplaceFirst | Helpers/PublishSettings.cs:533-537 | replacing the first ':'-piece and re-joining changes only the text before the first ':' |
| Endpoint.InsertPortIdempotent | Helpers/PublishSettings.cs:501-541 | inserting the port into an already processed URL changes nothing |
| Endpoint.AppendHandlerIfNotSpecified | Helpers/PublishSettings.cs:484-499 | the result ends with `msdeploy.axd` ignoring case and extends the input; it equals the input exactly when the input already ends that way; otherwise one '/' is added, and only when the input does not end in '/' |
| Endpoint.AppendHandlerIdempotent | Helpers/PublishSettings.cs:484-499 | appending the handler twice is appending it once |
| Endpoint.GetWmsvcUrl | Helpers/PublishSettings.cs:456-482 | a URL starting with "http" ignoring case is returned verbatim; any other becomes `https://`, then the URL with the port rule and then the handler rule applied, then `?site=` and the site name when that is non-empty; the result is never empty |
| Endpoint.GetWmsvcUrlIdempotent | Helpers/PublishSettings.cs:456-482 | normalising a normalised URL changes nothing |
| Endpoint.GetWmsvcUrlBareHost | Helpers/PublishSettings.cs:462-480 | a bare host becomes `https://` + host + `:8172/msdeploy.axd`, followed by `?site=` and the site name only when the site name is non-empty |
| Endpoint.GetWmsvcUrlKeepsPortAndHandler | Helpers/PublishSettings.cs:462-480 | a URL whose port precedes its path and that ends with the handler (`foo.com:443/MSDeploy/msdeploy.axd`) only gains the scheme and the site query |
| Endpoint.GetWmsvcUrlPortWithoutHandler | Helpers/PublishSettings.cs:462-480 | a host with a port and no path (`foo.com:443`) keeps its port and gains `/msdeploy.axd`, the scheme and the site query |
| Endpoint.GetWmsvcUrlPortBeforePath | Helpers/PublishSettings.cs:462-480 | a URL with a handler path and no port (`foo.com/MSDeploy/msdeploy.axd`) gets `:8172` before its first '/' |
| Endpoint.ComputerNameFor | Helpers/PublishSettings.cs:250-263 | the value cached for WMSvc and None is the normalised URL; for other agents it is the raw URL; it is non-empty for a non-empty raw URL and equal to a raw URL that starts with "http" |
| Endpoint.DefaultAuthenticationType | Helpers/PublishSettings.cs:408-427 | the result is always "basic" or "ntlm": "ntlm" exactly when `useNTLM` is true if it is set, otherwise "basic" exactly for WMSvc and None |
| Endpoint.ExplicitNtlmIgnoresAgent | Helpers/PublishSettings.cs:410-417 | a set `useNTLM` decides the authentication type whatever the agent |
| Profile.FieldNamesDistinct | Helpers/PublishSettings.cs:110-169 | no two of the ten recognised names, nor `publishMethod`, are equal ignoring case |
| Profile.FieldNamedSound | Helpers/PublishSettings.cs:110-168 | the name-test chain selects a field whose name matches; when it selects none, no recognised name matches |
| Profile.FieldNamedMatches | Helpers/PublishSettings.cs:110-168 | an attribute selects a field exactly when its name equals that field's name ignoring case |
| Profile.PublishMethodStoredNowhere | Helpers/PublishSettings.cs:169-172 | `publishMethod`, in any case, selects no field and does not go into the other-attributes bag |
| Profile.GetSet | Helpers/PublishSettings.cs:108-168 | storing into one field changes that field only and leaves the other-attributes bag alone |
| Profile.ParseBoolean | Helpers/PublishSettings.cs:159-168 | `useNTLM` reads as true exactly for "true" and as false exactly for "false", ignoring case |
| Profile.ParseField | Helpers/PublishSettings.cs:110-168 | a parsed value has the kind of its field; the seven text fields receive the attribute value verbatim (the SQL Server string when non-empty); `agentType` receives the agent `ParseAgentType` names; a non-empty readable `useNTLM` receives the boolean `ParseBoolean` reads |
| Profile.ParseFieldOutcome | Helpers/PublishSettings.cs:130-168 | a value fails exactly for an unknown agent type or a non-empty unreadable `useNTLM`, and an agent-type failure lists the four enum names; it changes nothing exactly when it is an empty SQL Server connection string or an empty `useNTLM`; `msdeployAllowUntrustedCertificate` is true only for "true" ignoring case |
| Profile.ApplyAttribute | Helpers/PublishSettings.cs:108-172 | one pass of the attribute loop; `ReadAttribute` is proved to perform it, and the `Scan` lemmas state what repeated passes do |
| Profile.ScanAttributes | Helpers/PublishSettings.cs:106-175 | the attribute loop, stopping at the first throw; its effect is stated by `ScanFailsIffRejected`, `ScanStopsAtFirstRejected`, `ScanLeavesUnassigned`, `ScanLastAssignmentWins`, `ScanLastTextWins` and `ScanCollectsOthers` |
| Profile.ScanFailsIffRejected | Helpers/PublishSettings.cs:106-175 | the attribute loop fails exactly when some attribute's value is rejected |
| Profile.ScanStopsAtFirstRejected | Helpers/PublishSettings.cs:130-142 | the loop fails with the first rejected attribute's error and keeps every field written before it |
| Profile.ScanLeavesUnassigned | Helpers/PublishSettings.cs:106-175 | a field that no attribute assigns keeps its value, whether or not the loop fails; empty SQL Server strings and empty `useNTLM` values assign nothing |
| Profile.ScanLastAssignmentWins | Helpers/PublishSettings.cs:106-175 | after a successful loop a field holds the value of the last attribute that assigns it |
| Profile.ScanLastTextWins | Helpers/PublishSettings.cs:106-153 | after a successful loop a text field such as `publishUrl` holds verbatim the value of the last attribute that assigns it |
| Profile.ApplyAttributeOthers | Helpers/PublishSettings.cs:108-172 | one successful pass appends the attribute to the bag exactly when it is neither recognised nor `publishMethod`, and otherwise leaves the bag alone |
| Profile.ScanCollectsOthers | Helpers/PublishSettings.cs:169-172 | after a successful loop the other-attributes bag has gained exactly the unrecognised attributes other than `publishMethod`, unchanged and in order |
| Profile.DatabaseOf | Helpers/PublishSettings.cs:220-228 | the record of one `add` element, a missing attribute reading as ""; `AddDatabaseEntriesStoresAll` states that these records are what is stored |
| Profile.AddDatabaseEntries | Helpers/PublishSettings.cs:211-244 | `AddDatabases` on values; its behaviour is stated by the `AddDatabaseEntries` lemmas below |
| Profile.AddDatabaseEntriesKeeps | Helpers/PublishSettings.cs:211-244 | entries already in the dictionary stay as they were, also when the call fails, and each entry stays under its folded non-empty name |
| Profile.AddDatabaseEntriesSucceedsIff | Helpers/PublishSettings.cs:219-236 | the call succeeds exactly when every `add` child has a non-empty name that is new to the dictionary and to the other `add` children, ignoring case |
| Profile.AddDatabaseEntriesStoresAll | Helpers/PublishSettings.cs:219-236 | after success each `add` child's record, with missing attributes read as "", is in the dictionary under its folded name |
| Profile.AddDatabaseEntriesKeys | Helpers/PublishSettings.cs:219-236 | after success the keys are the old keys plus the folded names of the `add` children; non-`add` children add nothing |
| Profile.AddDatabaseEntriesAppend | Helpers/PublishSettings.cs:215-239 | reading two child lists one after the other is reading their concatenation; a failure in the first stops everything |
| Profile.CollectDatabases | Helpers/PublishSettings.cs:179-190 | the child loop over the selected profile; `CollectDatabasesIsOnePass` reduces it to one `AddDatabaseEntries` pass |
| Profile.CollectDatabasesIsOnePass | Helpers/PublishSettings.cs:179-190 | every `databases` child fills the same dictionary: reading them in turn is one pass over all their entries |
| Profile.FirstFrom | Helpers/PublishSettings.cs:100-199 | the search returns the first match at or after its start, or nothing when no node from there on matches |
| Profile.SiteProfileIndex | Helpers/PublishSettings.cs:94-100 | nothing under a root other than `publishData`; otherwise the position of the first `publishProfile` whose `originalsitename` is the site name, no earlier child being one |
| Profile.SelectedProfile | Helpers/PublishSettings.cs:100-199 | nothing without a site profile; otherwise the first MSDeploy element at or after the site profile, no element between them being MSDeploy, or nothing when none follows |
| Profile.LoadResult | Helpers/PublishSettings.cs:88-209 | the whole outcome of `Load` on the old state; stated by `LoadInitializedIff`, `LoadReportsMissingProfileOnce` and `LoadIgnoresLaterSiblings`, and proved equal to `PublishSettings.Load` |
| Profile.LoadInitializedIff | Helpers/PublishSettings.cs:88-209 | `Initialized` ends true exactly when an MSDeploy profile was selected and nothing threw |
| Profile.LoadReportsMissingProfileOnce | Helpers/PublishSettings.cs:94-208 | exactly one parse-error line is appended when the site has a profile but no MSDeploy profile follows it, and none otherwise; without a selected profile only `Initialized` and the parse errors change |
| Profile.LoadIgnoresLaterSiblings | Helpers/PublishSettings.cs:100-199 | elements after the selected profile, including later MSDeploy profiles, do not affect the outcome |
| Publishing.DatabaseDictionary.constructor | Helpers/PublishSettings.cs:376-380 | the dictionary starts empty |
| Publishing.DatabaseDictionary.Add | Helpers/PublishSettings.cs:236 | a name already present ignoring case is refused, and then a stored entry's name equals it ignoring case; otherwise the entry is stored under the folded name |
| Publishing.PublishSettings.constructor | Helpers/PublishSettings.cs:31-46 | a new object has empty fields, agent None, unset `useNTLM`, no databases, no parse errors and nothing cached |
| Publishing.PublishSettings.Load | Helpers/PublishSettings.cs:88-209 | the new state and the error equal `LoadResult` of the old state; the cached computer name and authentication type are untouched; the dictionary invariant is kept |
| Publishing.PublishSettings.ReadAttributes | Helpers/PublishSettings.cs:106-175 | the attribute loop leaves the fields and the error that `ScanAttributes` gives |
| Publishing.PublishSettings.ReadAttribute | Helpers/PublishSettings.cs:108-172 | one pass of the loop does what `ApplyAttribute` says, and changes nothing when it throws |
| Publishing.PublishSettings.Store | Helpers/PublishSettings.cs:108-168 | one recognised field is written and nothing else |
| Publishing.PublishSettings.ReadDatabaseSections | Helpers/PublishSettings.cs:177-190 | the child loop leaves the dictionary and the error that `CollectDatabases` gives, and keeps every entry under its folded non-empty name |
| Publishing.PublishSettings.AddDatabases | Helpers/PublishSettings.cs:211-244 | the dictionary and the error are those of `AddDatabaseEntries` on the old dictionary, and every entry stays under its folded non-empty name |
| Publishing.PublishSettings.ComputerName | Helpers/PublishSettings.cs:246-265 | an empty cache is filled from `ComputerNameFor` when the raw URL is non-empty, and stays empty otherwise; a non-empty cached value is returned unchanged; nothing else changes |
| Publishing.PublishSettings.SetComputerName | Helpers/PublishSettings.cs:266-269 | sets the cached computer name only |
| Publishing.PublishSettings.AuthenticationType | Helpers/PublishSettings.cs:403-431 | an empty cache is filled from `DefaultAuthenticationType`; a cached value is returned unchanged; nothing else changes |
| Publishing.PublishSettings.SetAuthenticationType | Helpers/PublishSettings.cs:432-435 | sets the cached authentication type only |

## Left out

- Reading the document from a file or an XML string, and the message box shown when that fails (Helpers/PublishSettings.cs:50-79), are I/O and UI. The model starts from an already parsed element tree. The public constructor is modelled only as the state it sets up before `Load`.
- The XPath query (line 94) is not interpreted. It is modelled as "the first `publishProfile` child of a `publishData` root whose `originalsitename` equals the site name exactly". A site name containing a quote, which makes the query text invalid, is not modelled.
- `SqlConnectionStringBuilder` parsing (line 147) is a foreign library. The SQL Server connection string is stored as raw text, and a malformed string does not throw in the model.
- `Enum.Parse` (line 135) also accepts numbers and comma lists, and trims surrounding whitespace, so `" WMSvc "` parses in the source but is rejected by `ParseAgentType`. `Convert.ToBoolean` (line 164) also trims surrounding whitespace. The model accepts only the member names and "true"/"false", ignoring case.
- Case-insensitive comparison is ordinal and ASCII-only. Culture and Unicode case folding are not modelled.
- AppendHandlerIfNotSpecified: `publishUrl.EndsWith("/")` (line 488) is a culture-sensitive comparison, which ignores trailing ignorable code points such as U+00AD; `EndsWithSlash` tests the last character only, so for such a URL the model adds a '/' that the source does not.
- The keys of `Databases` are not kept as first written: the map is keyed by the folded name, so enumerating its keys yields `mydb` where the source yields `MyDb`. The name as written is the stored record's `name`.
- `OtherAttributes` is a `NameValueCollection`, which groups values by key ignoring case and joins repeated keys with commas. The model keeps a sequence of name/value pairs in document order.
- The line ending that `StringBuilder.AppendLine` adds is not modelled; each parse error is one sequence element.
- `Databases` and `OtherAttributes` are created lazily on first use (lines 371-388 and 438-454). The model creates them with the object, which a caller cannot tell apart.
- The internal parameterless constructor (lines 81-83) leaves the SQL builder and the parse-error buffer null. The model always has both.
- `ContentTraceFile`, `DbTraceFile` and the plain property getters and setters (lines 47-48 and 272-401) have no logic.
- The four URL examples in the source comments (lines 462-466) are not stated as literal strings. `GetWmsvcUrlKeepsPortAndHandler`, `GetWmsvcUrlPortBeforePath`, `GetWmsvcUrlPortWithoutHandler` and `GetWmsvcUrlBareHost` state them, in that order, for every host and site name.
