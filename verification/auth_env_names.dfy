/** What GetAuthEnv does with each attribute, by the names that users write and the names that blobfuse reads. */
module AuthEnvNames {
  import opened Text
  import opened Visits
  import opened Attributes
  import opened AuthEnv
  import opened AuthEnvSource

  function Case(lower: string): Effect {
    SwitchOn(SOURCE_NAMES, lower)
  }

  // ---------------------------------------------------------------- the cases

  lemma PlacesAreRead()
    ensures Case("subscriptionid") == Assign(SubscriptionId)
    ensures Case("resourcegroup") == Assign(ResourceGroup)
    ensures Case("containername") == Assign(ContainerName)
    ensures Case("keyvaulturl") == Assign(KeyVaultUrl)
    ensures Case("keyvaultsecretname") == Assign(KeyVaultSecretName)
    ensures Case("keyvaultsecretversion") == Assign(KeyVaultSecretVersion)
  {
    assert |"subscriptionid"| == 14 && |"resourcegroup"| == 13 && |"containername"| == 13 && |"keyvaulturl"| == 11;
    assert |"keyvaultsecretname"| == 18 && |"keyvaultsecretversion"| == 21;
    assert "resourcegroup"[0] == 'r' && "containername"[0] == 'c';
  }

  lemma AccountsAreRead()
    ensures Case("storageaccount") == Assign(AccountName) && Case("storageaccountname") == Assign(AccountName)
    ensures Case("secretname") == Assign(SecretName)
    ensures Case("secretnamespace") == Assign(SecretNamespace)
    ensures Case("csi.storage.k8s.io/pvc/namespace") == Assign(PvcNamespace)
    ensures Case("getaccountkeyfromsecret") == AssignIsTrue(KeyFromSecret)
  {
    assert |"storageaccount"| == 14 && |"storageaccountname"| == 18 && |"secretname"| == 10 && |"secretnamespace"| == 15;
    assert |"csi.storage.k8s.io/pvc/namespace"| == 32 && |"getaccountkeyfromsecret"| == 23;
    assert "storageaccount"[1] == 't' && "storageaccountname"[0] == 's';
  }

  lemma IdentitiesAreExported()
    ensures Case("azurestorageauthtype") == AssignAndExport(AuthType, "AZURE_STORAGE_AUTH_TYPE")
    ensures Case("azurestorageidentityclientid") == Export("AZURE_STORAGE_IDENTITY_CLIENT_ID")
    ensures Case("azurestorageidentityobjectid") == Export("AZURE_STORAGE_IDENTITY_OBJECT_ID")
    ensures Case("azurestorageidentityresourceid") == Export("AZURE_STORAGE_IDENTITY_RESOURCE_ID")
  {
    assert |"azurestorageauthtype"| == 20 && |"azurestorageidentityclientid"| == 28 && |"azurestorageidentityobjectid"| == 28;
    assert |"azurestorageidentityresourceid"| == 30;
    assert "azurestorageidentityobjectid"[20] == 'o' && "azurestorageidentityclientid"[20] == 'c';
  }

  lemma EndpointsAreExported()
    ensures Case("msiendpoint") == Export("MSI_ENDPOINT")
    ensures Case("azurestorageaadendpoint") == Export("AZURE_STORAGE_AAD_ENDPOINT")
  {
    assert |"msiendpoint"| == 11 && |"azurestorageaadendpoint"| == 23 && "msiendpoint"[0] == 'm';
    assert "azurestorageaadendpoint"[12] == 'a' && "azurestorageaadendpoint"[0] == 'a';
    ServicePrincipalNames();
  }

  lemma ServicePrincipalNames()
    ensures "azurestoragespnclientid"[12] == 's' && "azurestoragespntenantid"[12] == 's'
    ensures "azurestoragespnclientid"[15] == 'c' && "azurestoragespntenantid"[15] == 't'
    ensures "azurestoragespnclientid"[0] == "azurestoragespntenantid"[0] == 'a'
    ensures |"azurestoragespnclientid"| == |"azurestoragespntenantid"| == 23 && "getaccountkeyfromsecret"[0] == 'g'
  {
  }

  lemma ServicePrincipalsAreRead()
    ensures Case("azurestoragespnclientid") == Assign(SpnClientId)
    ensures Case("azurestoragespntenantid") == Assign(SpnTenantId)
  {
    ServicePrincipalNames();
  }

  lemma TokensAreRead()
    ensures Case("getlatestaccountkey") == AssignParsed(LatestAccountKey)
    ensures Case("clientid") == Assign(ClientId)
    ensures Case("mountwithworkloadidentitytoken") == AssignParsed(MountWithToken)
    ensures Case("tenantid") == Assign(TenantId)
    ensures Case("csi.storage.k8s.io/serviceaccount.tokens") == Assign(ServiceAccountToken)
  {
    assert |"getlatestaccountkey"| == 19 && |"clientid"| == 8 && |"tenantid"| == 8;
    assert |"mountwithworkloadidentitytoken"| == 30 && |"csi.storage.k8s.io/serviceaccount.tokens"| == 40;
    assert "clientid"[0] == 'c' && "tenantid"[0] == 't' && "mountwithworkloadidentitytoken"[0] == 'm' && "azurestorageidentityresourceid"[0] == 'a';
  }

  /** All other names are ignored. */
  lemma OthersAreIgnored(lower: string)
    requires lower !in
      {"subscriptionid", "resourcegroup", "containername", "keyvaulturl", "keyvaultsecretname", "keyvaultsecretversion",
       "storageaccount", "storageaccountname", "secretname", "secretnamespace", "csi.storage.k8s.io/pvc/namespace",
       "getaccountkeyfromsecret", "azurestorageauthtype", "azurestorageidentityclientid", "azurestorageidentityobjectid",
       "azurestorageidentityresourceid", "msiendpoint", "azurestoragespnclientid", "azurestoragespntenantid",
       "azurestorageaadendpoint", "getlatestaccountkey", "clientid", "mountwithworkloadidentitytoken", "tenantid",
       "csi.storage.k8s.io/serviceaccount.tokens"}
    ensures Case(lower) == Ignore
  {
  }

  // ---------------------------------------------------------------- the values

  /** The spellings of true that the comparison without regard to case accepts. */
  predicate SpellsTrue(v: string) {
    |v| == 4 && v[0] in {'t', 'T'} && v[1] in {'r', 'R'} && v[2] in {'u', 'U'} && v[3] in {'e', 'E'}
  }

  lemma TrueInAnyCase(slot: Slot, v: string)
    ensures AssignIsTrue(slot).Stored(v) == Switch(SpellsTrue(v)) && !AssignIsTrue(slot).Refuses(v)
  {
    assert ToLower(v) == "true" ==> |v| == 4 && forall i :: 0 <= i < 4 ==> LowerChar(v[i]) == "true"[i];
  }

  /** A switch that is parsed takes twelve values, six of them for true, and refuses all others. */
  lemma ParsedValues(slot: Slot, v: string)
    ensures AssignParsed(slot).Refuses(v) <==>
            v !in {"1", "t", "T", "TRUE", "true", "True", "0", "f", "F", "FALSE", "false", "False"}
    ensures AssignParsed(slot).Stored(v) == Switch(v in {"1", "t", "T", "TRUE", "true", "True"})
  {
  }

  /** The loop fails exactly for one of two attributes with a value that is none of the twelve. */
  lemma RefusedExactly(m: Attribs, k: string)
    requires k in m
    ensures Refused(AuthEnvSource.Switches(SOURCE_NAMES), m, k) <==>
            && ToLower(k) in {"getlatestaccountkey", "mountwithworkloadidentitytoken"}
            && m[k] !in {"1", "t", "T", "TRUE", "true", "True", "0", "f", "F", "FALSE", "false", "False"}
  {
    TokensAreRead();
    ParsedValues(LatestAccountKey, m[k]);
    ParsedValues(MountWithToken, m[k]);
    assert EffectOf(AuthEnvSource.Switches(SOURCE_NAMES), k) == Case(ToLower(k));
  }

  // ---------------------------------------------------------------- the environment

  /** The entry for an attribute with this name, if it is exported. */
  predicate IsEntry(lower: string, v: string, o: string) {
    || (lower == "azurestorageauthtype" && o == "AZURE_STORAGE_AUTH_TYPE" + "=" + v)
    || (lower == "azurestorageidentityclientid" && o == "AZURE_STORAGE_IDENTITY_CLIENT_ID" + "=" + v)
    || (lower == "azurestorageidentityobjectid" && o == "AZURE_STORAGE_IDENTITY_OBJECT_ID" + "=" + v)
    || (lower == "azurestorageidentityresourceid" && o == "AZURE_STORAGE_IDENTITY_RESOURCE_ID" + "=" + v)
    || (lower == "msiendpoint" && o == "MSI_ENDPOINT" + "=" + v)
    || (lower == "azurestorageaadendpoint" && o == "AZURE_STORAGE_AAD_ENDPOINT" + "=" + v)
  }

  lemma EntryExactly(lower: string, v: string, o: string)
    ensures o in Case(lower).Exported(v) <==> IsEntry(lower, v, o)
  {
    IdentitiesAreExported();
    EndpointsAreExported();
    NotExported(lower);
  }

  lemma NotExported(lower: string)
    ensures Case(lower).Export? || Case(lower).AssignAndExport? ==>
            lower in {"azurestorageauthtype", "azurestorageidentityclientid", "azurestorageidentityobjectid",
                      "azurestorageidentityresourceid", "msiendpoint", "azurestorageaadendpoint"}
  {
  }

  /** The environment of blobfuse holds exactly the entries of six attributes, each under the variable it belongs to. */
  lemma EnvironmentExactly(m: Attribs, order: seq<string>, o: string)
    requires IsVisit(m.Keys, order)
    ensures o in Environment(AuthEnvSource.Switches(SOURCE_NAMES), m, order) <==> exists k :: k in m && IsEntry(ToLower(k), m[k], o)
  {
    var e := AuthEnvSource.Switches(SOURCE_NAMES);
    var f := k => ExportedBy(e, m, k);
    VisitCovers(m.Keys, order);
    if o in Environment(e, m, order) {
      var i :| 0 <= i < |Environment(e, m, order)| && Environment(e, m, order)[i] == o;
      var k := GatherSource(order, f, i);
      EntryExactly(ToLower(k), m[k], o);
    }
    if k :| k in m && IsEntry(ToLower(k), m[k], o) {
      EntryExactly(ToLower(k), m[k], o);
      GatherHas(order, f, k, o);
    }
  }

  /** What a validated volume names its container and its account, in some spelling, is what the loop reads. */
  lemma PlaceIsReadBy(n: Names, m: Attribs, order: seq<string>, container: string, account: string)
    requires IsVisit(m.Keys, order) && Coherent(m)
    requires Reaches(n, n.containerName, Assign(ContainerName)) && Reaches(n, n.account, Assign(AccountName))
    requires AuthEnvSource.Switches(n)(n.account) == AuthEnvSource.Switches(n)(n.accountName) == Assign(AccountName)
    requires ToLower(n.account) == n.account
    requires Holds(m, n.containerName, container) && Holds(m, n.account, account)
    requires forall k :: k in m && ToLower(k) == n.accountName ==> m[k] == account
    ensures forall k :: k in order ==> k in m
    ensures var slots := Slots(AuthEnvSource.Switches(n), m, order);
            && ContainerName in slots && slots[ContainerName] == Word(container)
            && AccountName in slots && slots[AccountName] == Word(account)
  {
    var e := AuthEnvSource.Switches(n);
    var a :| IsSpelling(m, n.account, a) && m[a] == account;
    ValidatedAgree(n, m);
    HeldIsRead(e, m, order, n.containerName, ContainerName, container);
    HeldIsRead(e, m, order, n.account, AccountName, account);
  }

  /** The same of the source's names. */
  lemma PlaceIsRead(m: Attribs, order: seq<string>, container: string, account: string)
    requires IsVisit(m.Keys, order) && Coherent(m)
    requires Holds(m, "containername", container) && Holds(m, "storageaccount", account)
    requires forall k :: k in m && ToLower(k) == "storageaccountname" ==> m[k] == account
    ensures forall k :: k in order ==> k in m
    ensures var slots := Slots(AuthEnvSource.Switches(SOURCE_NAMES), m, order);
            && ContainerName in slots && slots[ContainerName] == Word(container)
            && AccountName in slots && slots[AccountName] == Word(account)
  {
    PlaceNames();
    PlaceIsReadBy(SOURCE_NAMES, m, order, container, account);
  }

  lemma PlaceNames()
    ensures var n := SOURCE_NAMES;
            && n.containerName == "containername" && n.account == "storageaccount" && n.accountName == "storageaccountname"
            && Reaches(n, n.containerName, Assign(ContainerName)) && Reaches(n, n.account, Assign(AccountName))
            && AuthEnvSource.Switches(n)(n.account) == AuthEnvSource.Switches(n)(n.accountName) == Assign(AccountName)
            && ToLower(n.account) == n.account
  {
    PlacesAreRead();
    AccountsAreRead();
    LowerName("containername");
    LowerName("storageaccount");
  }

  lemma LowerName(s: string)
    requires forall i :: 0 <= i < |s| ==> 'a' <= s[i] <= 'z'
    ensures ToLower(s) == s
  {
  }
}
