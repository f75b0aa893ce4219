/**
 * The profile extractor of `PublishSettings.Load` and `AddDatabases`, stated on
 * values: the publish-settings document as a tree of elements, the fold of the
 * selected profile's attributes into a record, the case-insensitive database
 * dictionary, and the whole outcome of a `Load` call. The class in
 * publish_settings.dfy performs these steps in place and is proved to agree.
 */
module Profile {
  import opened Wrappers
  import opened Strings
  import Endpoint

  /** One attribute of an element: its (qualified) name and its value. */
  datatype Attribute = Attribute(name: string, value: string)

  /** An element of the document: its name, its attributes and its child elements, in document order. */
  datatype Node = Node(name: string, attrs: seq<Attribute>, children: seq<Node>)

  /** The value of the first attribute named exactly `name`, if any. */
  function FindAttribute(attrs: seq<Attribute>, name: string): Option<string> {
    if attrs == [] then None
    else if attrs[0].name == name then Some(attrs[0].value)
    else FindAttribute(attrs[1..], name)
  }

  /** `nav.GetAttribute(name, "")`: the attribute's value, or "" when the element has none. */
  function GetAttribute(attrs: seq<Attribute>, name: string): string {
    match FindAttribute(attrs, name)
    case Some(v) => v
    case None => ""
  }

  /** Why a `Load` call throws. */
  datatype LoadError =
    | InvalidAgentType(validOptions: seq<string>)
    | InvalidUseNtlm(value: string)
    | MissingDatabaseName
    | DuplicateDatabaseName(name: string)

  // ---------------------------------------------------------------------------
  // The attribute fold
  // ---------------------------------------------------------------------------

  /** The ten attributes `Load` recognises, each stored in its own field. */
  datatype Field =
    | PublishUrl | MsDeploySite | UserName | UserPwd | DestinationAppUrl | AgentType
    | SqlServerConnectionString | MySqlConnectionString | AllowUntrustedCertificate | UseNtlm

  function AttributeName(f: Field): string {
    match f
    case PublishUrl => "publishUrl"
    case MsDeploySite => "msdeploySite"
    case UserName => "userName"
    case UserPwd => "userPWD"
    case DestinationAppUrl => "destinationAppUrl"
    case AgentType => "agentType"
    case SqlServerConnectionString => "SQLServerDBConnectionString"
    case MySqlConnectionString => "mySQLDBConnectionString"
    case AllowUntrustedCertificate => "msdeployAllowUntrustedCertificate"
    case UseNtlm => "useNTLM"
  }

  /** The `publishMethod` attribute: read to select the profile, never stored. */
  const PublishMethod := "publishMethod"

  /** The recognised attributes, in the order `Load` tests their names. */
  const FieldOrder: seq<Field> := [
    PublishUrl, MsDeploySite, UserName, UserPwd, DestinationAppUrl, AgentType,
    SqlServerConnectionString, MySqlConnectionString, AllowUntrustedCertificate, UseNtlm]

  /** The first of `fields` whose name equals `name` ignoring case. */
  function FirstFieldNamed(name: string, fields: seq<Field>): (r: Option<Field>)
    ensures r.Some? ==> EqualsIgnoreCase(name, AttributeName(r.value))
    ensures r.None? ==> forall i :: 0 <= i < |fields| ==> !EqualsIgnoreCase(name, AttributeName(fields[i]))
  {
    if fields == [] then None
    else if EqualsIgnoreCase(name, AttributeName(fields[0])) then Some(fields[0])
    else FirstFieldNamed(name, fields[1..])
  }

  /** The field an attribute name selects: the chain of ignore-case name tests in `Load`. */
  function FieldNamed(name: string): Option<Field> {
    FirstFieldNamed(name, FieldOrder)
  }

  /** No two recognised names, nor `publishMethod`, are equal ignoring case. */
  lemma FieldNamesDistinct(f: Field, g: Field)
    ensures f != g ==> !EqualsIgnoreCase(AttributeName(f), AttributeName(g))
    ensures !EqualsIgnoreCase(AttributeName(f), PublishMethod)
  {
    if f != g && AttributeName(f) != "userPWD" && AttributeName(f) != "useNTLM" {
      assert |Fold(AttributeName(f))| != |Fold(AttributeName(g))|;
    } else if f != g && (f == UserPwd || f == UseNtlm) && (g == UserPwd || g == UseNtlm) {
      DifferAt(AttributeName(f), AttributeName(g), 3);
    } else if f != g {
      assert |Fold(AttributeName(f))| != |Fold(AttributeName(g))|;
    }
    assert |Fold(AttributeName(f))| != |Fold(PublishMethod)|;
  }

  /** Every field is tested: each appears in `FieldOrder`. */
  lemma FieldOrderComplete(g: Field)
    ensures exists i :: 0 <= i < |FieldOrder| && FieldOrder[i] == g
  {
    match g
    case PublishUrl => assert FieldOrder[0] == g;
    case MsDeploySite => assert FieldOrder[1] == g;
    case UserName => assert FieldOrder[2] == g;
    case UserPwd => assert FieldOrder[3] == g;
    case DestinationAppUrl => assert FieldOrder[4] == g;
    case AgentType => assert FieldOrder[5] == g;
    case SqlServerConnectionString => assert FieldOrder[6] == g;
    case MySqlConnectionString => assert FieldOrder[7] == g;
    case AllowUntrustedCertificate => assert FieldOrder[8] == g;
    case UseNtlm => assert FieldOrder[9] == g;
  }

  /** What the test chain finds is right: a selected field's name matches, and no name matches when none is selected. */
  lemma FieldNamedSound(name: string)
    ensures FieldNamed(name).Some? ==> EqualsIgnoreCase(name, AttributeName(FieldNamed(name).value))
    ensures FieldNamed(name).None? ==> forall g :: !EqualsIgnoreCase(name, AttributeName(g))
  {
    if FieldNamed(name).None? {
      forall g ensures !EqualsIgnoreCase(name, AttributeName(g)) {
        FieldOrderComplete(g);
      }
    }
  }

  /** An attribute selects a field exactly when its name is that field's name ignoring case. */
  lemma FieldNamedMatches(name: string, f: Field)
    ensures FieldNamed(name) == Some(f) <==> EqualsIgnoreCase(name, AttributeName(f))
  {
    FieldNamedSound(name);
    if EqualsIgnoreCase(name, AttributeName(f)) && FieldNamed(name).Some? {
      FieldNamesDistinct(f, FieldNamed(name).value);
    }
  }

  /** `publishMethod`, in any case, selects no field and is kept out of the other-attributes bag. */
  lemma PublishMethodStoredNowhere(a: Attribute)
    requires EqualsIgnoreCase(a.name, PublishMethod)
    ensures FieldNamed(a.name).None? && !IsOther(a)
  {
    FieldNamedSound(a.name);
    if FieldNamed(a.name).Some? {
      FieldNamesDistinct(FieldNamed(a.name).value, FieldNamed(a.name).value);
    }
  }

  /** A typed field value. */
  datatype FieldValue =
    | Text(text: string)
    | Flag(flag: bool)
    | Agent(agent: Endpoint.RemoteAgent)
    | Tri(setting: Option<bool>)

  /** The raw fields of a `PublishSettings` that the attribute fold writes. */
  datatype Profile = Profile(
    publishUrlRaw: string,
    siteName: string,
    userName: string,
    password: string,
    destinationAppUrl: string,
    agentType: Endpoint.RemoteAgent,
    sqlConnectionString: string,
    mySqlConnectionString: string,
    allowUntrusted: bool,
    useNtlm: Option<bool>,
    otherAttributes: seq<Attribute>)

  /** The field values of a fresh `PublishSettings`. */
  const EmptyProfile := Profile("", "", "", "", "", Endpoint.RemoteAgent.None, "", "", false, None, [])

  function Get(p: Profile, f: Field): FieldValue {
    match f
    case PublishUrl => Text(p.publishUrlRaw)
    case MsDeploySite => Text(p.siteName)
    case UserName => Text(p.userName)
    case UserPwd => Text(p.password)
    case DestinationAppUrl => Text(p.destinationAppUrl)
    case AgentType => Agent(p.agentType)
    case SqlServerConnectionString => Text(p.sqlConnectionString)
    case MySqlConnectionString => Text(p.mySqlConnectionString)
    case AllowUntrustedCertificate => Flag(p.allowUntrusted)
    case UseNtlm => Tri(p.useNtlm)
  }

  /** The value has the kind the field holds. */
  predicate Fits(f: Field, v: FieldValue) {
    match f
    case AgentType => v.Agent?
    case AllowUntrustedCertificate => v.Flag?
    case UseNtlm => v.Tri?
    case _ => v.Text?
  }

  function Set(p: Profile, f: Field, v: FieldValue): Profile
    requires Fits(f, v)
  {
    match f
    case PublishUrl => p.(publishUrlRaw := v.text)
    case MsDeploySite => p.(siteName := v.text)
    case UserName => p.(userName := v.text)
    case UserPwd => p.(password := v.text)
    case DestinationAppUrl => p.(destinationAppUrl := v.text)
    case AgentType => p.(agentType := v.agent)
    case SqlServerConnectionString => p.(sqlConnectionString := v.text)
    case MySqlConnectionString => p.(mySqlConnectionString := v.text)
    case AllowUntrustedCertificate => p.(allowUntrusted := v.flag)
    case UseNtlm => p.(useNtlm := v.setting)
  }

  /** Setting a field changes that field and no other, and leaves the other-attributes bag alone. */
  lemma GetSet(p: Profile, f: Field, v: FieldValue, g: Field)
    requires Fits(f, v)
    ensures Get(Set(p, f, v), g) == if g == f then v else Get(p, g)
    ensures Set(p, f, v).otherAttributes == p.otherAttributes
  {
  }

  /**
   * `Convert.ToBoolean` on the two spellings it accepts: "true" and "false",
   * ignoring case; anything else is rejected.
   */
  function ParseBoolean(v: string): (r: Option<bool>)
    ensures r == Some(true) <==> EqualsIgnoreCase(v, "true")
    ensures r == Some(false) <==> EqualsIgnoreCase(v, "false")
  {
    if EqualsIgnoreCase(v, "true") then Some(true)
    else if EqualsIgnoreCase(v, "false") then Some(false)
    else None
  }

  /**
   * What one recognised attribute's value does to its field: a new value,
   * nothing at all (an empty SQL Server connection string or an empty
   * `useNTLM`), or a failure (an unknown agent type or an unreadable `useNTLM`).
   * `msdeployAllowUntrustedCertificate` is true only for "true" ignoring case.
   */
  function ParseField(f: Field, v: string): (r: Result<Option<FieldValue>, LoadError>)
    ensures r.Success? && r.value.Some? ==> Fits(f, r.value.value)
    ensures Fits(f, Text(v)) && (f == SqlServerConnectionString ==> v != "") ==> r == Success(Some(Text(v)))
    ensures f == AgentType && Endpoint.ParseAgentType(v).Some? ==> r == Success(Some(Agent(Endpoint.ParseAgentType(v).value)))
    ensures f == UseNtlm && v != "" && ParseBoolean(v).Some? ==> r == Success(Some(Tri(ParseBoolean(v))))
  {
    match f
    case AgentType =>
      (match Endpoint.ParseAgentType(v)
       case Some(a) => Success(Some(Agent(a)))
       case None => Failure(InvalidAgentType(Endpoint.AgentNames)))
    case SqlServerConnectionString =>
      if v == "" then Success(None) else Success(Some(Text(v)))
    case AllowUntrustedCertificate =>
      Success(Some(Flag(EqualsIgnoreCase(v, "true"))))
    case UseNtlm =>
      if v == "" then Success(None)
      else (match ParseBoolean(v)
            case Some(b) => Success(Some(Tri(Some(b))))
            case None => Failure(InvalidUseNtlm(v)))
    case _ => Success(Some(Text(v)))
  }

  /**
   * A value fails exactly for an unknown agent type or an unreadable non-empty
   * `useNTLM`; it changes nothing exactly when it is an empty SQL Server
   * connection string or an empty `useNTLM`; `msdeployAllowUntrustedCertificate`
   * is true only for "true" ignoring case.
   */
  lemma ParseFieldOutcome(f: Field, v: string)
    ensures var r := ParseField(f, v);
            && (r.Failure? <==> ((f == AgentType && Endpoint.ParseAgentType(v).None?)
                              || (f == UseNtlm && v != "" && ParseBoolean(v).None?)))
            && (r == Success(None) <==> (f == SqlServerConnectionString || f == UseNtlm) && v == "")
            && (f == AllowUntrustedCertificate ==> r == Success(Some(Flag(EqualsIgnoreCase(v, "true")))))
            && (f == AgentType && r.Failure? ==> r.error == InvalidAgentType(Endpoint.AgentNames))
  {
  }

  /** One step of the attribute loop of `Load`. */
  function ApplyAttribute(p: Profile, a: Attribute): Result<Profile, LoadError> {
    match FieldNamed(a.name)
    case Some(f) =>
      (match ParseField(f, a.value)
       case Failure(e) => Failure(e)
       case Success(None) => Success(p)
       case Success(Some(v)) => Success(Set(p, f, v)))
    case None =>
      if EqualsIgnoreCase(a.name, PublishMethod) then Success(p)
      else Success(p.(otherAttributes := p.otherAttributes + [a]))
  }

  /** The fields after the attribute loop, and the error that stopped it, if one did. */
  datatype ScanOutcome = ScanOutcome(profile: Profile, error: Option<LoadError>)

  /** The attribute loop of `Load`: fold every attribute in order, stopping at the first that throws. */
  function ScanAttributes(p: Profile, attrs: seq<Attribute>): ScanOutcome
    decreases |attrs|
  {
    if attrs == [] then ScanOutcome(p, None)
    else
      match ApplyAttribute(p, attrs[0])
      case Failure(e) => ScanOutcome(p, Some(e))
      case Success(q) => ScanAttributes(q, attrs[1..])
  }

  /** The attribute stores a value in field `f`. */
  predicate Assigns(a: Attribute, f: Field) {
    FieldNamed(a.name) == Some(f) && ParseField(f, a.value).Success? && ParseField(f, a.value).value.Some?
  }

  /** The attribute makes `Load` throw. */
  predicate Rejects(a: Attribute) {
    FieldNamed(a.name).Some? && ParseField(FieldNamed(a.name).value, a.value).Failure?
  }

  /** The attribute is neither recognised nor `publishMethod`, so it belongs in the other-attributes bag. */
  predicate IsOther(a: Attribute) {
    FieldNamed(a.name).None? && !EqualsIgnoreCase(a.name, PublishMethod)
  }

  function Others(attrs: seq<Attribute>): seq<Attribute> {
    if attrs == [] then [] else (if IsOther(attrs[0]) then [attrs[0]] else []) + Others(attrs[1..])
  }

  /** The loop stops with an error exactly when some attribute is rejected. */
  lemma {:induction false} ScanFailsIffRejected(p: Profile, attrs: seq<Attribute>)
    ensures ScanAttributes(p, attrs).error.Some? <==> exists i :: 0 <= i < |attrs| && Rejects(attrs[i])
    decreases |attrs|
  {
    if attrs != [] {
      match ApplyAttribute(p, attrs[0])
      case Failure(_) =>
      case Success(q) =>
        ScanFailsIffRejected(q, attrs[1..]);
        assert forall i :: 1 <= i < |attrs| ==> attrs[i] == attrs[1..][i - 1];
    }
  }

  /**
   * At the first rejected attribute the loop stops with that attribute's error,
   * keeping every field the earlier attributes wrote.
   */
  lemma {:induction false} ScanStopsAtFirstRejected(p: Profile, attrs: seq<Attribute>, i: nat)
    requires i < |attrs| && Rejects(attrs[i])
    requires forall j :: 0 <= j < i ==> !Rejects(attrs[j])
    ensures ScanAttributes(p, attrs).profile == ScanAttributes(p, attrs[..i]).profile
    ensures ScanAttributes(p, attrs).error == Some(ParseField(FieldNamed(attrs[i].name).value, attrs[i].value).error)
    decreases i
  {
    if i > 0 {
      assert !Rejects(attrs[0]);
      var q := ApplyAttribute(p, attrs[0]).value;
      assert attrs[..i][1..] == attrs[1..][..i - 1];
      ScanStopsAtFirstRejected(q, attrs[1..], i - 1);
    }
  }

  /**
   * A field no attribute assigns keeps its value, whether or not the loop fails;
   * in particular an empty SQL Server connection string or `useNTLM` leaves it.
   */
  lemma {:induction false} ScanLeavesUnassigned(p: Profile, attrs: seq<Attribute>, f: Field)
    requires forall j :: 0 <= j < |attrs| ==> !Assigns(attrs[j], f)
    ensures Get(ScanAttributes(p, attrs).profile, f) == Get(p, f)
    decreases |attrs|
  {
    if attrs != [] {
      match ApplyAttribute(p, attrs[0])
      case Failure(_) =>
      case Success(q) =>
        var a := attrs[0];
        if FieldNamed(a.name).Some? && ParseField(FieldNamed(a.name).value, a.value).value.Some? {
          GetSet(p, FieldNamed(a.name).value, ParseField(FieldNamed(a.name).value, a.value).value.value, f);
        }
        assert Get(q, f) == Get(p, f);
        ScanLeavesUnassigned(q, attrs[1..], f);
    }
  }

  /** After a successful loop a field holds the value of the last attribute that assigns it. */
  lemma {:induction false} ScanLastAssignmentWins(p: Profile, attrs: seq<Attribute>, f: Field, i: nat)
    requires i < |attrs| && Assigns(attrs[i], f)
    requires forall j :: i < j < |attrs| ==> !Assigns(attrs[j], f)
    requires ScanAttributes(p, attrs).error.None?
    ensures Get(ScanAttributes(p, attrs).profile, f) == ParseField(f, attrs[i].value).value.value
    decreases i
  {
    var q := ApplyAttribute(p, attrs[0]).value;
    if i == 0 {
      var v := ParseField(f, attrs[0].value).value.value;
      GetSet(p, f, v, f);
      ScanLeavesUnassigned(q, attrs[1..], f);
    } else {
      ScanLastAssignmentWins(q, attrs[1..], f, i - 1);
    }
  }

  /**
   * After a successful loop a text field (`publishUrl`, `userName`, ...) holds,
   * verbatim, the value of the last attribute that assigns it.
   */
  lemma ScanLastTextWins(p: Profile, attrs: seq<Attribute>, f: Field, i: nat)
    requires i < |attrs| && Assigns(attrs[i], f) && Fits(f, Text(attrs[i].value))
    requires forall j :: i < j < |attrs| ==> !Assigns(attrs[j], f)
    requires ScanAttributes(p, attrs).error.None?
    ensures Get(ScanAttributes(p, attrs).profile, f) == Text(attrs[i].value)
  {
    ScanLastAssignmentWins(p, attrs, f, i);
  }

  /**
   * After a successful loop the other-attributes bag has gained exactly the
   * attributes that are neither recognised nor `publishMethod`, unchanged and
   * in document order.
   */
  lemma {:induction false} ScanCollectsOthers(p: Profile, attrs: seq<Attribute>)
    requires ScanAttributes(p, attrs).error.None?
    ensures ScanAttributes(p, attrs).profile.otherAttributes == p.otherAttributes + Others(attrs)
    decreases |attrs|
  {
    if attrs != [] {
      var a := attrs[0];
      ApplyAttributeOthers(p, a);
      var q := ApplyAttribute(p, a).value;
      ScanCollectsOthers(q, attrs[1..]);
    }
  }

  /** One pass adds the attribute to the bag exactly when it is neither recognised nor `publishMethod`. */
  lemma ApplyAttributeOthers(p: Profile, a: Attribute)
    requires ApplyAttribute(p, a).Success?
    ensures ApplyAttribute(p, a).value.otherAttributes == p.otherAttributes + (if IsOther(a) then [a] else [])
  {
    if FieldNamed(a.name).Some? && ParseField(FieldNamed(a.name).value, a.value).value.Some? {
      GetSet(p, FieldNamed(a.name).value, ParseField(FieldNamed(a.name).value, a.value).value.value, PublishUrl);
    }
  }

  // ---------------------------------------------------------------------------
  // Databases
  // ---------------------------------------------------------------------------

  /** `PublishSettingsDatabase`; `typeName` is its `Type` property. */
  datatype Database = Database(
    name: string,
    connectionString: string,
    providerName: string,
    typeName: string,
    targetDatabase: string,
    targetServerVersion: string)

  /** The record an `add` element describes; a missing attribute reads as "". */
  function DatabaseOf(n: Node): Database {
    Database(
      GetAttribute(n.attrs, "name"),
      GetAttribute(n.attrs, "connectionString"),
      GetAttribute(n.attrs, "providerName"),
      GetAttribute(n.attrs, "type"),
      GetAttribute(n.attrs, "targetDatabaseEngineType"),
      GetAttribute(n.attrs, "targetServerVersion"))
  }

  /**
   * The invariant of the `Databases` dictionary, whose comparer ignores case:
   * each entry sits under the folded form of its non-empty name.
   */
  predicate KeyedByName(m: map<string, Database>) {
    forall k :: k in m ==> m[k].name != "" && k == Fold(m[k].name)
  }

  datatype DatabasesOutcome = DatabasesOutcome(entries: map<string, Database>, error: Option<LoadError>)

  /** `AddDatabases` over the children of one `databases` element. */
  function AddDatabaseEntries(m: map<string, Database>, children: seq<Node>): DatabasesOutcome
    decreases |children|
  {
    if children == [] then DatabasesOutcome(m, None)
    else if !EqualsIgnoreCase(children[0].name, "add") then AddDatabaseEntries(m, children[1..])
    else
      var db := DatabaseOf(children[0]);
      if db.name == "" then DatabasesOutcome(m, Some(MissingDatabaseName))
      else if Fold(db.name) in m then DatabasesOutcome(m, Some(DuplicateDatabaseName(db.name)))
      else AddDatabaseEntries(m[Fold(db.name) := db], children[1..])
  }

  /** The records of the `add` children, in order; every other child is skipped. */
  function AddedDatabases(children: seq<Node>): seq<Database> {
    if children == [] then []
    else (if EqualsIgnoreCase(children[0].name, "add") then [DatabaseOf(children[0])] else [])
         + AddedDatabases(children[1..])
  }

  /** Every record has a name, and no name is already in `m` or repeated, all ignoring case. */
  predicate NamesFresh(m: map<string, Database>, dbs: seq<Database>) {
    forall i :: 0 <= i < |dbs| ==>
      && dbs[i].name != ""
      && Fold(dbs[i].name) !in m
      && forall j :: i < j < |dbs| ==> Fold(dbs[i].name) != Fold(dbs[j].name)
  }

  /**
   * Entries already present stay as they were, also when the call fails, and
   * the dictionary invariant is kept.
   */
  lemma {:induction false} AddDatabaseEntriesKeeps(m: map<string, Database>, children: seq<Node>)
    ensures forall k :: k in m ==> (k in AddDatabaseEntries(m, children).entries
                                  && AddDatabaseEntries(m, children).entries[k] == m[k])
    ensures KeyedByName(m) ==> KeyedByName(AddDatabaseEntries(m, children).entries)
    decreases |children|
  {
    if children != [] && EqualsIgnoreCase(children[0].name, "add") {
      var db := DatabaseOf(children[0]);
      if db.name != "" && Fold(db.name) !in m {
        AddDatabaseEntriesKeeps(m[Fold(db.name) := db], children[1..]);
      }
    } else if children != [] {
      AddDatabaseEntriesKeeps(m, children[1..]);
    }
  }

  /** The call succeeds exactly when every `add` child has a name that is new, ignoring case. */
  lemma {:induction false} AddDatabaseEntriesSucceedsIff(m: map<string, Database>, children: seq<Node>)
    ensures AddDatabaseEntries(m, children).error.None? <==> NamesFresh(m, AddedDatabases(children))
    decreases |children|
  {
    if children != [] {
      var rest := children[1..];
      var dbs := AddedDatabases(children);
      if EqualsIgnoreCase(children[0].name, "add") {
        var db := DatabaseOf(children[0]);
        assert dbs == [db] + AddedDatabases(rest);
        if db.name != "" && Fold(db.name) !in m {
          var m' := m[Fold(db.name) := db];
          AddDatabaseEntriesSucceedsIff(m', rest);
          var tail := AddedDatabases(rest);
          assert forall i :: 1 <= i < |dbs| ==> dbs[i] == tail[i - 1];
          if NamesFresh(m, dbs) {
            forall i | 0 <= i < |tail|
              ensures tail[i].name != "" && Fold(tail[i].name) !in m'
              ensures forall j :: i < j < |tail| ==> Fold(tail[i].name) != Fold(tail[j].name)
            {
              assert dbs[i + 1] == tail[i] && dbs[0] == db;
              assert Fold(dbs[0].name) != Fold(dbs[i + 1].name);
              forall j | i < j < |tail| ensures Fold(tail[i].name) != Fold(tail[j].name) {
                assert dbs[j + 1] == tail[j];
              }
            }
            assert NamesFresh(m', tail);
          }
          if NamesFresh(m', tail) {
            forall i | 0 <= i < |dbs|
              ensures dbs[i].name != "" && Fold(dbs[i].name) !in m
              ensures forall j :: i < j < |dbs| ==> Fold(dbs[i].name) != Fold(dbs[j].name)
            {
              if i > 0 { assert dbs[i] == tail[i - 1]; } else { assert dbs[0] == db; }
              forall j | i < j < |dbs| ensures Fold(dbs[i].name) != Fold(dbs[j].name) {
                assert dbs[j] == tail[j - 1];
              }
            }
          }
        } else {
          assert dbs[0] == db;
        }
      } else {
        assert dbs == AddedDatabases(rest);
        AddDatabaseEntriesSucceedsIff(m, rest);
      }
    }
  }

  /** After a successful call every `add` child's record is in the dictionary under its folded name. */
  lemma {:induction false} AddDatabaseEntriesStoresAll(m: map<string, Database>, children: seq<Node>)
    requires AddDatabaseEntries(m, children).error.None?
    ensures var r := AddDatabaseEntries(m, children);
            var dbs := AddedDatabases(children);
            forall i :: 0 <= i < |dbs| ==> Fold(dbs[i].name) in r.entries && r.entries[Fold(dbs[i].name)] == dbs[i]
    decreases |children|
  {
    if children != [] {
      var rest := children[1..];
      if EqualsIgnoreCase(children[0].name, "add") {
        var db := DatabaseOf(children[0]);
        var m' := m[Fold(db.name) := db];
        AddDatabaseEntriesStoresAll(m', rest);
        AddDatabaseEntriesKeeps(m', rest);
        assert AddedDatabases(children) == [db] + AddedDatabases(rest);
      } else {
        assert AddedDatabases(children) == AddedDatabases(rest);
        AddDatabaseEntriesStoresAll(m, rest);
      }
    }
  }

  /** A successful call adds exactly the folded names of the `add` children as new keys. */
  lemma {:induction false} AddDatabaseEntriesKeys(m: map<string, Database>, children: seq<Node>)
    requires AddDatabaseEntries(m, children).error.None?
    ensures var dbs := AddedDatabases(children);
            AddDatabaseEntries(m, children).entries.Keys == m.Keys + set i | 0 <= i < |dbs| :: Fold(dbs[i].name)
    decreases |children|
  {
    if children != [] {
      var rest := children[1..];
      var dbs := AddedDatabases(children);
      if EqualsIgnoreCase(children[0].name, "add") {
        var db := DatabaseOf(children[0]);
        AddDatabaseEntriesKeys(m[Fold(db.name) := db], rest);
        var tail := AddedDatabases(rest);
        assert dbs == [db] + tail;
        var keys := set i | 0 <= i < |dbs| :: Fold(dbs[i].name);
        var tailKeys := set i | 0 <= i < |tail| :: Fold(tail[i].name);
        assert keys == {Fold(db.name)} + tailKeys by {
          forall k | k in tailKeys ensures k in keys {
            var i :| 0 <= i < |tail| && k == Fold(tail[i].name);
            assert dbs[i + 1] == tail[i];
          }
          assert Fold(dbs[0].name) in keys;
        }
      } else {
        assert dbs == AddedDatabases(rest);
        AddDatabaseEntriesKeys(m, rest);
      }
    }
  }

  /** Processing two child lists one after the other is processing their concatenation. */
  lemma {:induction false} AddDatabaseEntriesAppend(m: map<string, Database>, a: seq<Node>, b: seq<Node>)
    ensures AddDatabaseEntries(m, a + b)
         == var r := AddDatabaseEntries(m, a);
            if r.error.Some? then r else AddDatabaseEntries(r.entries, b)
    decreases |a|
  {
    if a == [] {
      assert a + b == b;
    } else {
      assert (a + b)[0] == a[0];
      assert (a + b)[1..] == a[1..] + b;
      if EqualsIgnoreCase(a[0].name, "add") {
        var db := DatabaseOf(a[0]);
        if db.name != "" && Fold(db.name) !in m {
          AddDatabaseEntriesAppend(m[Fold(db.name) := db], a[1..], b);
        }
      } else {
        AddDatabaseEntriesAppend(m, a[1..], b);
      }
    }
  }

  /** The child loop of `Load`: every `databases` child (ignoring case) fills the same dictionary. */
  function CollectDatabases(m: map<string, Database>, children: seq<Node>): DatabasesOutcome
    decreases |children|
  {
    if children == [] then DatabasesOutcome(m, None)
    else if EqualsIgnoreCase(children[0].name, "databases") then
      var r := AddDatabaseEntries(m, children[0].children);
      if r.error.Some? then r else CollectDatabases(r.entries, children[1..])
    else CollectDatabases(m, children[1..])
  }

  /** The children of all `databases` sections, one section after another. */
  function DatabaseSectionEntries(children: seq<Node>): seq<Node> {
    if children == [] then []
    else (if EqualsIgnoreCase(children[0].name, "databases") then children[0].children else [])
         + DatabaseSectionEntries(children[1..])
  }

  /** Visiting every `databases` section is one `AddDatabases` pass over all their entries. */
  lemma {:induction false} CollectDatabasesIsOnePass(m: map<string, Database>, children: seq<Node>)
    ensures CollectDatabases(m, children) == AddDatabaseEntries(m, DatabaseSectionEntries(children))
    decreases |children|
  {
    if children != [] {
      var rest := DatabaseSectionEntries(children[1..]);
      if EqualsIgnoreCase(children[0].name, "databases") {
        AddDatabaseEntriesAppend(m, children[0].children, rest);
        var r := AddDatabaseEntries(m, children[0].children);
        if r.error.None? {
          CollectDatabasesIsOnePass(r.entries, children[1..]);
        }
      } else {
        assert DatabaseSectionEntries(children) == rest;
        CollectDatabasesIsOnePass(m, children[1..]);
      }
    }
  }

  // ---------------------------------------------------------------------------
  // Selecting the profile and the whole of Load
  // ---------------------------------------------------------------------------

  /** The first node at or after `from` that satisfies `matches`. */
  function FirstFrom(nodes: seq<Node>, from: nat, matches: Node -> bool): (r: Option<nat>)
    requires from <= |nodes|
    ensures r.Some? ==> from <= r.value < |nodes| && matches(nodes[r.value])
    ensures forall j :: from <= j < |nodes| && (r.None? || j < r.value) ==> !matches(nodes[j])
    decreases |nodes| - from
  {
    if from == |nodes| then None
    else if matches(nodes[from]) then Some(from)
    else FirstFrom(nodes, from + 1, matches)
  }

  /** A `publishProfile` element whose `originalsitename` is exactly the site name. */
  predicate IsSiteProfile(n: Node, siteName: string) {
    n.name == "publishProfile" && FindAttribute(n.attrs, "originalsitename") == Some(siteName)
  }

  /** An element whose `publishMethod` attribute is "MSDeploy" ignoring case. */
  predicate IsMSDeploy(n: Node) {
    EqualsIgnoreCase(GetAttribute(n.attrs, PublishMethod), "MSDeploy")
  }

  /** `/publishData/publishProfile[@originalsitename='siteName']`: the first such profile. */
  function SiteProfileIndex(doc: Node, siteName: string): (r: Option<nat>)
    ensures doc.name != "publishData" ==> r.None?
    ensures r.Some? ==> r.value < |doc.children| && IsSiteProfile(doc.children[r.value], siteName)
    ensures doc.name == "publishData" ==>
              forall j :: 0 <= j < |doc.children| && (r.None? || j < r.value) ==> !IsSiteProfile(doc.children[j], siteName)
  {
    if doc.name == "publishData" then FirstFrom(doc.children, 0, n => IsSiteProfile(n, siteName)) else None
  }

  /**
   * The profile `Load` reads: the first MSDeploy element among the site's
   * first profile and all of its following siblings, whatever their site.
   */
  function SelectedProfile(doc: Node, siteName: string): (r: Option<nat>)
    ensures SiteProfileIndex(doc, siteName).None? ==> r.None?
    ensures r.Some? ==> SiteProfileIndex(doc, siteName).value <= r.value < |doc.children|
                        && IsMSDeploy(doc.children[r.value])
    ensures SiteProfileIndex(doc, siteName).Some? ==>
              forall j :: SiteProfileIndex(doc, siteName).value <= j < |doc.children| && (r.None? || j < r.value)
                          ==> !IsMSDeploy(doc.children[j])
  {
    match SiteProfileIndex(doc, siteName)
    case None => None
    case Some(i) => FirstFrom(doc.children, i, IsMSDeploy)
  }

  /** The line `Load` appends to its parse errors when the site has no MSDeploy profile. */
  const NotFoundMessage := "Could not find MSDeploy publish settings"

  /** Everything of a `PublishSettings` that `Load` can change. */
  datatype Settings = Settings(
    profile: Profile,
    databases: map<string, Database>,
    parseErrors: seq<string>,
    initialized: bool)

  datatype LoadOutcome = LoadOutcome(settings: Settings, error: Option<LoadError>)

  /** `Load(nav, siteName)` as a function of the state before the call. */
  function LoadResult(s: Settings, doc: Node, siteName: string): LoadOutcome {
    var reset := s.(initialized := false);
    if SiteProfileIndex(doc, siteName).None? then LoadOutcome(reset, None)
    else match SelectedProfile(doc, siteName)
      case None => LoadOutcome(reset.(parseErrors := s.parseErrors + [NotFoundMessage]), None)
      case Some(k) =>
        var node := doc.children[k];
        var scanned := ScanAttributes(s.profile, node.attrs);
        if scanned.error.Some? then LoadOutcome(reset.(profile := scanned.profile), scanned.error)
        else
          var dbs := CollectDatabases(s.databases, node.children);
          LoadOutcome(reset.(profile := scanned.profile, databases := dbs.entries, initialized := dbs.error.None?),
                      dbs.error)
  }

  /** `Initialized` ends true exactly when a profile was selected and nothing threw. */
  lemma LoadInitializedIff(s: Settings, doc: Node, siteName: string)
    ensures LoadResult(s, doc, siteName).settings.initialized
        <==> SelectedProfile(doc, siteName).Some? && LoadResult(s, doc, siteName).error.None?
  {
  }

  /**
   * A parse error is reported only when the site has a profile but none of it
   * and its followers is MSDeploy, and then as exactly one line; a document
   * without the site reports nothing.
   */
  lemma LoadReportsMissingProfileOnce(s: Settings, doc: Node, siteName: string)
    ensures LoadResult(s, doc, siteName).settings.parseErrors
         == s.parseErrors + if SiteProfileIndex(doc, siteName).Some? && SelectedProfile(doc, siteName).None?
                            then [NotFoundMessage] else []
    ensures SelectedProfile(doc, siteName).None? ==> LoadResult(s, doc, siteName) == LoadOutcome(
              s.(initialized := false, parseErrors := LoadResult(s, doc, siteName).settings.parseErrors), None)
  {
  }

  /** A search whose answer lies in a common prefix gives the same answer on both sequences. */
  lemma FirstFromPrefix(a: seq<Node>, b: seq<Node>, from: nat, matches: Node -> bool, k: nat)
    requires from <= |a| && from <= |b|
    requires FirstFrom(a, from, matches) == Some(k)
    requires k < |b| && a[..k + 1] == b[..k + 1]
    ensures FirstFrom(b, from, matches) == Some(k)
  {
    forall j | 0 <= j <= k ensures a[j] == b[j] {
      assert a[j] == a[..k + 1][j];
      assert b[j] == b[..k + 1][j];
    }
  }

  /**
   * Only the selected profile and what precedes it matter: siblings after it,
   * MSDeploy profiles included, cannot change the outcome.
   */
  lemma LoadIgnoresLaterSiblings(s: Settings, doc: Node, other: Node, siteName: string, k: nat)
    requires SelectedProfile(doc, siteName) == Some(k)
    requires other.name == doc.name && k < |other.children| && other.children[..k + 1] == doc.children[..k + 1]
    ensures LoadResult(s, other, siteName) == LoadResult(s, doc, siteName)
  {
    var i := SiteProfileIndex(doc, siteName).value;
    FirstFromPrefix(doc.children, other.children, 0, n => IsSiteProfile(n, siteName), i);
    FirstFromPrefix(doc.children, other.children, i, IsMSDeploy, k);
    assert other.children[k] == doc.children[k] by {
      assert other.children[k] == other.children[..k + 1][k];
    }
  }
}
