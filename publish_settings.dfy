/**
 * The `PublishSettings` object: its fields, the `Load` routine that fills them
 * from a publish-settings document, `AddDatabases`, and the two getters that
 * compute and cache a value on first use. Each method is proved against the
 * value-level definitions of the Profile and Endpoint modules.
 */
module Publishing {
  import opened Wrappers
  import opened Strings
  import opened Profile
  import Endpoint

  /**
   * The `Databases` dictionary, created with an ordinal ignore-case comparer:
   * entries are held under the folded form of their name.
   */
  class DatabaseDictionary {
    var entries: map<string, Database>

    constructor ()
      ensures entries == map[]
    {
      entries := map[];
    }

    /** `IDictionary.Add`: refuses (the .NET call throws) a name already present ignoring case. */
    method Add(db: Database) returns (added: bool)
      modifies this
      ensures added <==> Fold(db.name) !in old(entries)
      ensures entries == if added then old(entries)[Fold(db.name) := db] else old(entries)
      ensures !added && KeyedByName(old(entries)) ==> EqualsIgnoreCase(old(entries)[Fold(db.name)].name, db.name)
    {
      var key := Fold(db.name);
      if key in entries {
        return false;
      }
      entries := entries[key := db];
      return true;
    }
  }

  class PublishSettings {
    var publishUrlRaw: string
    var computerName: string
    var siteName: string
    var userName: string
    var password: string
    var destinationAppUrl: string
    var sqlConnectionString: string
    var mySqlConnectionString: string
    var allowUntrusted: bool
    var authenticationType: string
    var useNtlm: Option<bool>
    const databases: DatabaseDictionary
    var agentType: Endpoint.RemoteAgent
    var otherAttributes: seq<Attribute>
    var parseErrors: seq<string>
    var initialized: bool

    /** The fields the attribute loop of `Load` writes. */
    function ProfileOf(): Profile
      reads this
    {
      Profile(publishUrlRaw, siteName, userName, password, destinationAppUrl, agentType,
              sqlConnectionString, mySqlConnectionString, allowUntrusted, useNtlm, otherAttributes)
    }

    /** Everything `Load` can change. */
    function Snapshot(): Settings
      reads this, databases
    {
      Settings(ProfileOf(), databases.entries, parseErrors, initialized)
    }

    /** The object invariant: the dictionary holds each database under its folded, non-empty name. */
    predicate Valid()
      reads this, databases
    {
      KeyedByName(databases.entries)
    }

    /** The state of a new object before its document is loaded: every field empty, nothing cached. */
    constructor ()
      ensures Valid()
      ensures Snapshot() == Settings(EmptyProfile, map[], [], false)
      ensures computerName == "" && authenticationType == ""
      ensures fresh(databases)
    {
      publishUrlRaw := "";
      computerName := "";
      siteName := "";
      userName := "";
      password := "";
      destinationAppUrl := "";
      sqlConnectionString := "";
      mySqlConnectionString := "";
      allowUntrusted := false;
      authenticationType := "";
      useNtlm := None;
      databases := new DatabaseDictionary();
      agentType := Endpoint.RemoteAgent.None;
      otherAttributes := [];
      parseErrors := [];
      initialized := false;
    }

    /**
     * `Load(nav, siteName)`: select the site's MSDeploy profile, read its
     * attributes and its databases. A thrown exception is the returned error;
     * the fields written before it keep their new values.
     */
    method Load(doc: Node, siteName: string) returns (error: Option<LoadError>)
      requires Valid()
      modifies this, databases
      ensures Valid()
      ensures LoadOutcome(Snapshot(), error) == LoadResult(old(Snapshot()), doc, siteName)
      ensures computerName == old(computerName) && authenticationType == old(authenticationType)
    {
      ghost var s0 := Snapshot();
      error := None;
      initialized := false;
      var found := false;

      var first := SiteProfileIndex(doc, siteName);
      if first.None? {
        return None;
      }
      var i := first.value;
      var fContinue := true;
      while fContinue
        invariant first.value <= i <= |doc.children|
        invariant fContinue ==> i < |doc.children|
        invariant !fContinue ==> i == |doc.children|
        invariant forall j :: first.value <= j < i ==> !IsMSDeploy(doc.children[j])
        invariant !found && Snapshot() == s0.(initialized := false)
        invariant computerName == old(computerName) && authenticationType == old(authenticationType)
        decreases |doc.children| - i
      {
        var node := doc.children[i];
        if EqualsIgnoreCase(GetAttribute(node.attrs, PublishMethod), "MSDeploy") {
          assert SelectedProfile(doc, siteName) == Some(i);
          error := ReadAttributes(node.attrs);
          if error.Some? {
            return;
          }
          error := ReadDatabaseSections(node.children);
          if error.Some? {
            return;
          }
          found := true;
          break;
        }
        i := i + 1;
        fContinue := i < |doc.children|;
      }

      if !found {
        parseErrors := parseErrors + [NotFoundMessage];
      } else {
        initialized := true;
      }
    }

    /** The attribute loop of `Load`. */
    method ReadAttributes(attrs: seq<Attribute>) returns (error: Option<LoadError>)
      modifies this
      ensures ScanOutcome(ProfileOf(), error) == ScanAttributes(old(ProfileOf()), attrs)
      ensures parseErrors == old(parseErrors) && initialized == old(initialized)
      ensures computerName == old(computerName) && authenticationType == old(authenticationType)
    {
      var j := 0;
      while j < |attrs|
        invariant 0 <= j <= |attrs|
        invariant ScanAttributes(ProfileOf(), attrs[j..]) == ScanAttributes(old(ProfileOf()), attrs)
        invariant parseErrors == old(parseErrors) && initialized == old(initialized)
        invariant computerName == old(computerName) && authenticationType == old(authenticationType)
      {
        assert attrs[j..][0] == attrs[j] && attrs[j..][1..] == attrs[j + 1..];
        error := ReadAttribute(attrs[j]);
        if error.Some? {
          return;
        }
        j := j + 1;
      }
      return None;
    }

    /**
     * One pass of the attribute loop: the field the name selects ignoring case
     * (`FieldNamed` is the chain of name tests) receives the parsed value, or
     * else the attribute joins the other-attributes bag unless it is
     * `publishMethod`.
     */
    method ReadAttribute(a: Attribute) returns (error: Option<LoadError>)
      modifies this
      ensures match ApplyAttribute(old(ProfileOf()), a)
              case Success(q) => error.None? && ProfileOf() == q
              case Failure(e) => error == Some(e) && ProfileOf() == old(ProfileOf())
      ensures parseErrors == old(parseErrors) && initialized == old(initialized)
      ensures computerName == old(computerName) && authenticationType == old(authenticationType)
    {
      match FieldNamed(a.name) {
        case Some(f) =>
          match ParseField(f, a.value) {
            case Failure(e) => return Some(e);
            case Success(None) =>
            case Success(Some(v)) => Store(f, v);
          }
        case None =>
          if !EqualsIgnoreCase(a.name, PublishMethod) {
            otherAttributes := otherAttributes + [a];
          }
      }
      return None;
    }

    /** Writes one recognised field and nothing else. */
    method Store(f: Field, v: FieldValue)
      requires Fits(f, v)
      modifies this
      ensures ProfileOf() == Set(old(ProfileOf()), f, v)
      ensures parseErrors == old(parseErrors) && initialized == old(initialized)
      ensures computerName == old(computerName) && authenticationType == old(authenticationType)
    {
      match f {
        case PublishUrl => publishUrlRaw := v.text;
        case MsDeploySite => siteName := v.text;
        case UserName => userName := v.text;
        case UserPwd => password := v.text;
        case DestinationAppUrl => destinationAppUrl := v.text;
        case AgentType => agentType := v.agent;
        case SqlServerConnectionString => sqlConnectionString := v.text;
        case MySqlConnectionString => mySqlConnectionString := v.text;
        case AllowUntrustedCertificate => allowUntrusted := v.flag;
        case UseNtlm => useNtlm := v.setting;
      }
    }

    /** The child loop of `Load`: every `databases` child, ignoring case, is read into the one dictionary. */
    method ReadDatabaseSections(children: seq<Node>) returns (error: Option<LoadError>)
      modifies databases
      ensures DatabasesOutcome(databases.entries, error) == CollectDatabases(old(databases.entries), children)
      ensures KeyedByName(old(databases.entries)) ==> KeyedByName(databases.entries)
    {
      CollectDatabasesIsOnePass(databases.entries, children);
      AddDatabaseEntriesKeeps(databases.entries, DatabaseSectionEntries(children));
      var j := 0;
      while j < |children|
        invariant 0 <= j <= |children|
        invariant CollectDatabases(databases.entries, children[j..]) == CollectDatabases(old(databases.entries), children)
      {
        assert children[j..][0] == children[j] && children[j..][1..] == children[j + 1..];
        if EqualsIgnoreCase(children[j].name, "databases") {
          error := AddDatabases(databases, children[j].children);
          if error.Some? {
            return;
          }
        }
        j := j + 1;
      }
      return None;
    }

    /**
     * `AddDatabases(databases, nav)`: each `add` child becomes one entry; a
     * missing name or one already present (ignoring case) stops the pass,
     * keeping the entries added so far.
     */
    static method AddDatabases(databases: DatabaseDictionary, children: seq<Node>) returns (error: Option<LoadError>)
      modifies databases
      ensures DatabasesOutcome(databases.entries, error) == AddDatabaseEntries(old(databases.entries), children)
      ensures KeyedByName(old(databases.entries)) ==> KeyedByName(databases.entries)
    {
      AddDatabaseEntriesKeeps(databases.entries, children);
      var j := 0;
      while j < |children|
        invariant 0 <= j <= |children|
        invariant AddDatabaseEntries(databases.entries, children[j..]) == AddDatabaseEntries(old(databases.entries), children)
      {
        assert children[j..][0] == children[j] && children[j..][1..] == children[j + 1..];
        var child := children[j];
        if EqualsIgnoreCase(child.name, "add") {
          var db := DatabaseOf(child);
          if db.name == "" {
            return Some(MissingDatabaseName);
          }
          var added := databases.Add(db);
          if !added {
            return Some(DuplicateDatabaseName(db.name));
          }
        }
        j := j + 1;
      }
      return None;
    }

    /**
     * The `ComputerName` getter: computed from the raw publish URL on first use
     * and cached; an empty raw URL leaves the cache empty.
     */
    method ComputerName() returns (r: string)
      modifies this
      ensures computerName == if old(computerName) == "" && publishUrlRaw != ""
                              then Endpoint.ComputerNameFor(publishUrlRaw, siteName, agentType)
                              else old(computerName)
      ensures r == computerName
      ensures old(computerName) != "" ==> r == old(computerName)
      ensures Snapshot() == old(Snapshot()) && authenticationType == old(authenticationType)
    {
      if computerName == "" && publishUrlRaw != "" {
        if agentType == Endpoint.RemoteAgent.WMSvc || agentType == Endpoint.RemoteAgent.None {
          computerName := Endpoint.GetWmsvcUrl(publishUrlRaw, siteName);
        } else {
          computerName := publishUrlRaw;
        }
      }
      return computerName;
    }

    /** The `ComputerName` setter. */
    method SetComputerName(value: string)
      modifies this
      ensures computerName == value
      ensures Snapshot() == old(Snapshot()) && authenticationType == old(authenticationType)
    {
      computerName := value;
    }

    /**
     * The `AuthenticationType` getter: decided from `useNTLM` and the agent on
     * first use and cached.
     */
    method AuthenticationType() returns (r: string)
      modifies this
      ensures authenticationType == if old(authenticationType) == ""
                                    then Endpoint.DefaultAuthenticationType(useNtlm, agentType)
                                    else old(authenticationType)
      ensures r == authenticationType
      ensures old(authenticationType) != "" ==> r == old(authenticationType)
      ensures Snapshot() == old(Snapshot()) && computerName == old(computerName)
    {
      if authenticationType == "" {
        if useNtlm.Some? && useNtlm.value {
          authenticationType := "ntlm";
        } else if useNtlm.Some? && !useNtlm.value {
          authenticationType := "basic";
        } else if agentType == Endpoint.RemoteAgent.WMSvc || agentType == Endpoint.RemoteAgent.None {
          authenticationType := "basic";
        } else {
          authenticationType := "ntlm";
        }
      }
      return authenticationType;
    }

    /** The `AuthenticationType` setter. */
    method SetAuthenticationType(value: string)
      modifies this
      ensures authenticationType == value
      ensures Snapshot() == old(Snapshot()) && computerName == old(computerName)
    {
      authenticationType := value;
    }
  }
}
