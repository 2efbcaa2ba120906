/** The switch statement of GetAuthEnv itself, and what it makes of validated and of restricted attributes. */
module AuthEnvSource {
  import opened Text
  import opened Visits
  import opened Attributes
  import opened AuthEnv

  /** The lower-case names of the attributes. */
  datatype Names = Names(
    subscriptionId: string, resourceGroup: string, containerName: string, keyVaultUrl: string,
    keyVaultSecretName: string, keyVaultSecretVersion: string, account: string, accountName: string, secretName: string,
    secretNamespace: string, pvcNamespace: string, keyFromSecret: string, authType: string, identityClientId: string,
    identityObjectId: string, identityResourceId: string, msiEndpoint: string, spnClientId: string, spnTenantId: string,
    aadEndpoint: string, latestAccountKey: string, clientId: string, mountWithToken: string, tenantId: string,
    serviceAccountToken: string)

  const SOURCE_NAMES := Names(
    "subscriptionid", "resourcegroup", "containername", "keyvaulturl", "keyvaultsecretname", "keyvaultsecretversion",
    "storageaccount", "storageaccountname", "secretname", "secretnamespace", "csi.storage.k8s.io/pvc/namespace",
    "getaccountkeyfromsecret", "azurestorageauthtype", "azurestorageidentityclientid", "azurestorageidentityobjectid",
    "azurestorageidentityresourceid", "msiendpoint", "azurestoragespnclientid", "azurestoragespntenantid",
    "azurestorageaadendpoint", "getlatestaccountkey", "clientid", "mountwithworkloadidentitytoken", "tenantid",
    "csi.storage.k8s.io/serviceaccount.tokens")

  function SwitchOn(n: Names, lower: string): Effect {
    if lower == n.subscriptionId then Assign(SubscriptionId)
    else if lower == n.resourceGroup then Assign(ResourceGroup)
    else if lower == n.containerName then Assign(ContainerName)
    else if lower == n.keyVaultUrl then Assign(KeyVaultUrl)
    else if lower == n.keyVaultSecretName then Assign(KeyVaultSecretName)
    else if lower == n.keyVaultSecretVersion then Assign(KeyVaultSecretVersion)
    else if lower == n.account || lower == n.accountName then Assign(AccountName)
    else if lower == n.secretName then Assign(SecretName)
    else if lower == n.secretNamespace then Assign(SecretNamespace)
    else if lower == n.pvcNamespace then Assign(PvcNamespace)
    else if lower == n.keyFromSecret then AssignIsTrue(KeyFromSecret)
    else if lower == n.authType then AssignAndExport(AuthType, "AZURE_STORAGE_AUTH_TYPE")
    else if lower == n.identityClientId then Export("AZURE_STORAGE_IDENTITY_CLIENT_ID")
    else if lower == n.identityObjectId then Export("AZURE_STORAGE_IDENTITY_OBJECT_ID")
    else if lower == n.identityResourceId then Export("AZURE_STORAGE_IDENTITY_RESOURCE_ID")
    else if lower == n.msiEndpoint then Export("MSI_ENDPOINT")
    else if lower == n.spnClientId then Assign(SpnClientId)
    else if lower == n.spnTenantId then Assign(SpnTenantId)
    else if lower == n.aadEndpoint then Export("AZURE_STORAGE_AAD_ENDPOINT")
    else if lower == n.latestAccountKey then AssignParsed(LatestAccountKey)
    else if lower == n.clientId then Assign(ClientId)
    else if lower == n.mountWithToken then AssignParsed(MountWithToken)
    else if lower == n.tenantId then Assign(TenantId)
    else if lower == n.serviceAccountToken then Assign(ServiceAccountToken)
    else Ignore
  }

  function Switches(n: Names): AuthEnv.Switches {
    lower => SwitchOn(n, lower)
  }

  /** The names that are written to a variable. */
  function NamesOf(n: Names, s: Slot): set<string> {
    match s
    case SubscriptionId => {n.subscriptionId}
    case ResourceGroup => {n.resourceGroup}
    case ContainerName => {n.containerName}
    case KeyVaultUrl => {n.keyVaultUrl}
    case KeyVaultSecretName => {n.keyVaultSecretName}
    case KeyVaultSecretVersion => {n.keyVaultSecretVersion}
    case AccountName => {n.account, n.accountName}
    case SecretName => {n.secretName}
    case SecretNamespace => {n.secretNamespace}
    case PvcNamespace => {n.pvcNamespace}
    case KeyFromSecret => {n.keyFromSecret}
    case AuthType => {n.authType}
    case SpnClientId => {n.spnClientId}
    case SpnTenantId => {n.spnTenantId}
    case LatestAccountKey => {n.latestAccountKey}
    case ClientId => {n.clientId}
    case MountWithToken => {n.mountWithToken}
    case TenantId => {n.tenantId}
    case ServiceAccountToken => {n.serviceAccountToken}
  }

  lemma WritesByName(n: Names, f: string, s: Slot)
    requires SwitchOn(n, f).Writes(s)
    ensures f in NamesOf(n, s)
  {
  }

  lemma NamesOfOne(n: Names, s: Slot, f: string, g: string)
    requires f in NamesOf(n, s) && g in NamesOf(n, s)
    ensures f == g || (f in {n.account, n.accountName} && g in {n.account, n.accountName})
  {
  }

  lemma OnlyTwoNames(n: Names, f: string, g: string, s: Slot)
    requires Switches(n)(f).Writes(s) && Switches(n)(g).Writes(s)
    ensures f == g || (f in {n.account, n.accountName} && g in {n.account, n.accountName})
  {
    WritesByName(n, f, s);
    WritesByName(n, g, s);
    NamesOfOne(n, s, f, g);
  }

  lemma SwitchHasOnlyAlias(n: Names)
    ensures OnlyAlias(Switches(n), n.account, n.accountName)
  {
    forall f, g, s | Switches(n)(f).Writes(s) && Switches(n)(g).Writes(s)
      ensures f == g || (f in {n.account, n.accountName} && g in {n.account, n.accountName})
    {
      OnlyTwoNames(n, f, g, s);
    }
  }

  /** Validated attributes are read alike in every order, if the two names of the account agree. */
  lemma ValidatedAgree(n: Names, m: Attribs)
    requires Coherent(m)
    requires forall k, l :: k in m && l in m && ToLower(k) == n.account && ToLower(l) == n.accountName ==> m[k] == m[l]
    requires Switches(n)(n.account) == Switches(n)(n.accountName) == Assign(AccountName)
    ensures Agree(Switches(n), m)
  {
    SwitchHasOnlyAlias(n);
    CoherentAgree(Switches(n), m, n.account, n.accountName);
  }

  /** The case of the switch that a name reaches, in whatever spelling. */
  predicate Reaches(n: Names, name: string, effect: Effect) {
    EffectOf(Switches(n), name) == effect
  }

  /** The names that inline volumes are restricted in are different attributes with their own cases. */
  predicate AllReached(n: Names) {
    && Reaches(n, n.secretNamespace, Assign(SecretNamespace)) && Reaches(n, n.keyFromSecret, AssignIsTrue(KeyFromSecret))
    && Reaches(n, n.account, Assign(AccountName)) && Reaches(n, n.accountName, Assign(AccountName))
    && ToLower(n.account) == n.account && ToLower(n.accountName) == n.accountName
    && Restricted(n).Valid()
  }

  function Restricted(n: Names): Fields {
    Fields(n.secretNamespace, n.keyFromSecret, n.account, n.accountName)
  }

  /** A restricted volume whose attributes are valid reads its secret in the pod's namespace, takes the account from the
      secret, and names no account itself, whatever spellings its attributes came with and whatever the order. */
  lemma RestrictedIsRead(n: Names, m: Attribs, order: seq<string>, namespace: string)
    requires AllReached(n) && IsVisit(m.Keys, order) && Coherent(m)
    requires Holds(m, n.secretNamespace, namespace) && Holds(m, n.keyFromSecret, "true")
    requires Holds(m, n.account, "") && Holds(m, n.accountName, "")
    ensures forall k :: k in order ==> k in m
    ensures var slots := Slots(Switches(n), m, order);
            && SecretNamespace in slots && slots[SecretNamespace] == Word(namespace)
            && KeyFromSecret in slots && slots[KeyFromSecret] == Switch(true)
            && AccountName in slots && slots[AccountName] == Word("")
  {
    ValidatedAgree(n, m);
    HeldIsRead(Switches(n), m, order, n.secretNamespace, SecretNamespace, namespace);
    HeldIsRead(Switches(n), m, order, n.keyFromSecret, KeyFromSecret, "true");
    HeldIsRead(Switches(n), m, order, n.account, AccountName, "");
  }

  /** An inline volume without identity on its way from NodePublishVolume through the checks of NodeStageVolume to
      GetAuthEnv. */
  method ReadInline(a: AttributeMap, n: Names, namespace: string)
    returns (slots: map<Slot, Content>, env: seq<string>, ok: bool)
    requires AllReached(n)
    modifies a
    ensures ok <==> Coherent(a.m) && forall k :: !Refused(Switches(n), a.m, k)
    ensures ok ==>
              && SecretNamespace in slots && slots[SecretNamespace] == Word(namespace)
              && KeyFromSecret in slots && slots[KeyFromSecret] == Switch(true)
              && AccountName in slots && slots[AccountName] == Word("")
  {
    a.RestrictInline(Restricted(n), namespace, true);
    var order := a.Visit();
    ok := a.ValidateKeys(order);
    if !ok {
      return map[], [], false;
    }
    order := a.Visit();
    slots, env, ok := ReadAttributes(Switches(n), a.m, order);
    RestrictedIsRead(n, a.m, order, namespace);
  }

  lemma LowerFixed(s: string)
    requires forall i :: 0 <= i < |s| ==> LowerChar(s[i]) == s[i]
    ensures ToLower(s) == s
  {
  }

  /** The source's names are of this kind. */
  lemma SourceReached()
    ensures AllReached(SOURCE_NAMES)
  {
    SourceLower();
    SourceDiffers();
  }

  lemma SourceLower()
    ensures var n := SOURCE_NAMES;
            && ToLower(n.secretNamespace) == n.secretNamespace && ToLower(n.keyFromSecret) == n.keyFromSecret
            && ToLower(n.account) == n.account && ToLower(n.accountName) == n.accountName
  {
    LowerFixed(SOURCE_NAMES.secretNamespace);
    LowerFixed(SOURCE_NAMES.keyFromSecret);
    LowerFixed(SOURCE_NAMES.account);
    LowerFixed(SOURCE_NAMES.accountName);
  }

  lemma SourceDiffers()
    ensures Restricted(SOURCE_NAMES).Valid()
  {
    var n := SOURCE_NAMES;
    assert |n.secretNamespace| == 15 && |n.keyFromSecret| == 23 && |n.account| == 14 && |n.accountName| == 18;
  }

  // ---------------------------------------------------------------- the service account token

  /** The spelling under which NodeStageVolume adds the token. */
  const TOKEN_FIELD := "csi.storage.k8s.io/serviceAccount.tokens"

  /** What GetAuthEnv's loop takes for the token in an order of the visit; nothing, if no attribute was written there. */
  ghost predicate ReadsToken(n: Names, m: Attribs, order: seq<string>, token: string)
    requires IsVisit(m.Keys, order)
  {
    VisitCovers(m.Keys, order);
    var slots := Slots(Switches(n), m, order);
    ServiceAccountToken in slots && slots[ServiceAccountToken] == Word(token)
  }

  ghost predicate AlwaysReadsToken(n: Names, m: Attribs, token: string) {
    forall order :: IsVisit(m.Keys, order) ==> ReadsToken(n, m, order, token)
  }

  /** Once the token is added, the loop reads it in every order exactly when no other spelling of its field is there. */
  lemma TokenIsReadExactly(n: Names, m: Attribs, visit: seq<string>, field: string, token: string)
    requires IsVisit(m.Keys, visit) && Coherent(m) && Lookup(m, visit, field) == "" && token != ""
    requires Reaches(n, field, Assign(ServiceAccountToken)) && ToLower(field) == n.serviceAccountToken
    ensures AlwaysReadsToken(n, m[field := token], token) <==> forall k :: IsSpelling(m, field, k) ==> k == field
  {
    if k :| IsSpelling(m, field, k) && k != field {
      LookupFinds(m, visit, field);
      var order := TokenIsLost(n, m, visit, field, token, k);
    } else {
      var after := m[field := token];
      forall order | IsVisit(after.Keys, order) ensures ReadsToken(n, after, order, token) {
        OnlyTokenIsRead(n, m, order, field, token);
      }
    }
  }

  lemma OnlyTokenIsRead(n: Names, m: Attribs, order: seq<string>, field: string, token: string)
    requires IsVisit(m[field := token].Keys, order)
    requires forall k :: IsSpelling(m, field, k) ==> k == field
    requires Reaches(n, field, Assign(ServiceAccountToken)) && ToLower(field) == n.serviceAccountToken
    ensures ReadsToken(n, m[field := token], order, token)
  {
    var after := m[field := token];
    VisitCovers(after.Keys, order);
    assert WritesSlot(Switches(n), after, field, ServiceAccountToken);
    var last := LastWriterStays(Switches(n), after, order, ServiceAccountToken);
    WritesByName(n, ToLower(last), ServiceAccountToken);
    assert last != field ==> IsSpelling(m, field, last);
  }

  /** The order in which another spelling comes last. */
  lemma TokenIsLost(n: Names, m: Attribs, visit: seq<string>, field: string, token: string, other: string)
    returns (order: seq<string>)
    requires IsVisit(m.Keys, visit) && IsSpelling(m, field, other) && other != field && m[other] == "" && token != ""
    requires Reaches(n, field, Assign(ServiceAccountToken))
    ensures IsVisit(m[field := token].Keys, order) && !ReadsToken(n, m[field := token], order, token)
  {
    var after := m[field := token];
    var some := AnyVisit(m, visit, field, token);
    var _, last := VisitWith(after.Keys, some, other);
    order := last;
    VisitCovers(after.Keys, order);
    assert Slots(Switches(n), after, order)[ServiceAccountToken] == Word("");
  }

  lemma AnyVisit(m: Attribs, visit: seq<string>, field: string, token: string) returns (order: seq<string>)
    requires IsVisit(m.Keys, visit)
    ensures IsVisit(m[field := token].Keys, order)
  {
    var after := m[field := token];
    order := if field in m then visit else visit + [field];
    if field in m {
      assert after.Keys == m.Keys;
    } else {
      assert after.Keys == m.Keys + {field};
    }
  }

  /** The driver's own field: an empty attribute in lower case passes validation, and in one order the loop reads it instead
      of the token. */
  lemma TokenMayBeLost(token: string) returns (m: Attribs, order: seq<string>)
    requires token != ""
    ensures Coherent(m) && m == map[ToLower(TOKEN_FIELD) := ""]
    ensures IsVisit(m[TOKEN_FIELD := token].Keys, order)
    ensures !ReadsToken(SOURCE_NAMES, m[TOKEN_FIELD := token], order, token)
  {
    var other := ToLower(TOKEN_FIELD);
    m := map[other := ""];
    TokenFieldReached();
    LowerTwice(TOKEN_FIELD);
    assert multiset([other]) == multiset(m.Keys);
    order := TokenIsLost(SOURCE_NAMES, m, [other], TOKEN_FIELD, token, other);
  }

  lemma LowerTwice(s: string)
    ensures ToLower(ToLower(s)) == ToLower(s)
  {
  }

  lemma TokenFieldReached()
    ensures Reaches(SOURCE_NAMES, TOKEN_FIELD, Assign(ServiceAccountToken))
    ensures ToLower(TOKEN_FIELD) == SOURCE_NAMES.serviceAccountToken && ToLower(TOKEN_FIELD) != TOKEN_FIELD
  {
    TokenFieldLower();
    assert |SOURCE_NAMES.serviceAccountToken| == 40;
    assert TOKEN_FIELD[26] == 'A' && ToLower(TOKEN_FIELD)[26] == 'a';
  }

  lemma TokenFieldLower()
    ensures ToLower(TOKEN_FIELD) == SOURCE_NAMES.serviceAccountToken
  {
    assert |TOKEN_FIELD| == |SOURCE_NAMES.serviceAccountToken|;
    assert forall i :: 0 <= i < |TOKEN_FIELD| ==> LowerChar(TOKEN_FIELD[i]) == SOURCE_NAMES.serviceAccountToken[i];
  }
}
