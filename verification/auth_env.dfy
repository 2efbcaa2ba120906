/** The loop of GetAuthEnv: every attribute is read once, in the order of a visit, into the variables of the function and
    the environment of blobfuse. */
module AuthEnv {
  import opened Text
  import opened Visits
  import opened Attributes

  /** The variables that the loop fills. */
  datatype Slot =
    | SubscriptionId | ResourceGroup | ContainerName | KeyVaultUrl | KeyVaultSecretName | KeyVaultSecretVersion
    | AccountName | SecretName | SecretNamespace | PvcNamespace | KeyFromSecret | AuthType | SpnClientId | SpnTenantId
    | LatestAccountKey | ClientId | MountWithToken | TenantId | ServiceAccountToken

  datatype Content = Word(text: string) | Switch(on: bool)

  /** What a case of the switch statement does with the value of an attribute. */
  datatype Effect =
    | Ignore
    | Assign(slot: Slot)
    | AssignIsTrue(slot: Slot)
    | AssignParsed(slot: Slot)
    | Export(variable: string)
    | AssignAndExport(slot: Slot, variable: string)
  {
    predicate Writes(s: Slot) {
      !Ignore? && !Export? && slot == s
    }

    predicate Refuses(v: string) {
      AssignParsed? && v !in TRUTHS && v !in FALSEHOODS
    }

    function Stored(v: string): Content {
      match this
      case AssignIsTrue(_) => Switch(ToLower(v) == "true")
      case AssignParsed(_) => Switch(v in TRUTHS)
      case _ => Word(v)
    }

    /** The variables after the case. */
    function Write(slots: map<Slot, Content>, v: string): map<Slot, Content> {
      if Ignore? || Export? then slots else slots[slot := Stored(v)]
    }

    function Exported(v: string): seq<string> {
      if Export? || AssignAndExport? then [variable + "=" + v] else []
    }
  }

  /** What strconv.ParseBool accepts. */
  const TRUTHS := ["1", "t", "T", "TRUE", "true", "True"]
  const FALSEHOODS := ["0", "f", "F", "FALSE", "false", "False"]

  /** A switch statement: what to do for each lower-case key. */
  type Switches = string -> Effect

  function EffectOf(e: Switches, k: string): Effect {
    e(ToLower(k))
  }

  /** The variables after the visited attributes. */
  function Slots(e: Switches, m: Attribs, order: seq<string>): map<Slot, Content>
    requires forall k :: k in order ==> k in m
  {
    if order == [] then map[]
    else
      var k := order[|order| - 1];
      var before := Slots(e, m, order[..|order| - 1]);
      EffectOf(e, k).Write(before, m[k])
  }

  function ExportedBy(e: Switches, m: Attribs, k: string): seq<string> {
    if k in m then EffectOf(e, k).Exported(m[k]) else []
  }

  /** The environment after the visited attributes. */
  function Environment(e: Switches, m: Attribs, order: seq<string>): seq<string> {
    Gather(order, k => ExportedBy(e, m, k))
  }

  predicate Refused(e: Switches, m: Attribs, k: string) {
    k in m && EffectOf(e, k).Refuses(m[k])
  }

  /** The loop. It stops at the first value that it cannot parse. */
  method ReadAttributes(e: Switches, m: Attribs, order: seq<string>)
    returns (slots: map<Slot, Content>, env: seq<string>, ok: bool)
    requires IsVisit(m.Keys, order)
    ensures ok <==> forall k :: !Refused(e, m, k)
    ensures ok ==> (forall k :: k in order ==> k in m) && slots == Slots(e, m, order)
    ensures ok ==> env == Environment(e, m, order)
  {
    VisitCovers(m.Keys, order);
    slots, env := map[], [];
    var i := 0;
    while i < |order|
      invariant 0 <= i <= |order|
      invariant slots == Slots(e, m, order[..i])
      invariant env == Environment(e, m, order[..i])
      invariant forall j :: 0 <= j < i ==> !Refused(e, m, order[j])
    {
      var k := order[i];
      if EffectOf(e, k).Refuses(m[k]) {
        assert Refused(e, m, k);
        return slots, env, false;
      }
      OneMore(e, m, order[..i], k);
      assert order[..i + 1] == order[..i] + [k];
      slots, env := TakeCase(EffectOf(e, k), m[k], slots, env);
      i := i + 1;
    }
    assert order[..i] == order;
    return slots, env, true;
  }

  lemma OneMore(e: Switches, m: Attribs, order: seq<string>, k: string)
    requires k in m && forall l :: l in order ==> l in m
    ensures Slots(e, m, order + [k]) == EffectOf(e, k).Write(Slots(e, m, order), m[k])
    ensures Environment(e, m, order + [k]) == Environment(e, m, order) + EffectOf(e, k).Exported(m[k])
  {
    assert (order + [k])[..|order|] == order;
    GatherSnoc(order, k => ExportedBy(e, m, k), k);
  }

  /** One case of the switch statement. */
  method TakeCase(effect: Effect, v: string, before: map<Slot, Content>, exported: seq<string>)
    returns (slots: map<Slot, Content>, env: seq<string>)
    ensures slots == effect.Write(before, v) && env == exported + effect.Exported(v)
  {
    slots, env := before, exported;
    match effect {
      case Ignore =>
      case Assign(slot) => slots := slots[slot := Word(v)];
      case AssignIsTrue(slot) => slots := slots[slot := Switch(ToLower(v) == "true")];
      case AssignParsed(slot) => slots := slots[slot := Switch(v in TRUTHS)];
      case Export(variable) => env := env + [variable + "=" + v];
      case AssignAndExport(slot, variable) =>
        slots := slots[slot := Word(v)];
        env := env + [variable + "=" + v];
    }
  }

  // ---------------------------------------------------------------- what does not depend on the order

  predicate WritesSlot(e: Switches, m: Attribs, k: string, s: Slot) {
    k in m && EffectOf(e, k).Writes(s)
  }

  /** Attributes that are written to the same variable store the same there. */
  ghost predicate Agree(e: Switches, m: Attribs) {
    forall k, l, s :: WritesSlot(e, m, k, s) && WritesSlot(e, m, l, s) ==>
      EffectOf(e, k).Stored(m[k]) == EffectOf(e, l).Stored(m[l])
  }

  /** The last attribute that is written to a variable stays there. */
  lemma {:induction false} LastWriterStays(e: Switches, m: Attribs, order: seq<string>, s: Slot) returns (k: string)
    requires forall k :: k in order ==> k in m
    ensures s in Slots(e, m, order) <==> exists l :: l in order && WritesSlot(e, m, l, s)
    ensures s in Slots(e, m, order) ==>
              k in order && WritesSlot(e, m, k, s) && Slots(e, m, order)[s] == EffectOf(e, k).Stored(m[k])
  {
    k := "";
    if order != [] {
      var before, last := order[..|order| - 1], order[|order| - 1];
      k := LastWriterStays(e, m, before, s);
      assert order == before + [last];
      if EffectOf(e, last).Writes(s) {
        assert WritesSlot(e, m, last, s);
        k := last;
      }
    }
  }

  lemma SlotsIfAgree(e: Switches, m: Attribs, order: seq<string>, other: seq<string>)
    requires IsVisit(m.Keys, order) && IsVisit(m.Keys, other) && Agree(e, m)
    requires forall k :: k in m <==> k in order
    requires forall k :: k in m <==> k in other
    ensures Slots(e, m, order) == Slots(e, m, other)
  {
    var a, b := Slots(e, m, order), Slots(e, m, other);
    forall s ensures s in a <==> s in b
      ensures s in a && s in b ==> a[s] == b[s]
    {
      var k := LastWriterStays(e, m, order, s);
      var l := LastWriterStays(e, m, other, s);
    }
  }

  lemma SlotsUnlessAgree(e: Switches, m: Attribs, order: seq<string>) returns (one: seq<string>, two: seq<string>)
    requires IsVisit(m.Keys, order) && !Agree(e, m)
    ensures IsVisit(m.Keys, one) && IsVisit(m.Keys, two)
    ensures (forall k :: k in one <==> k in m) && (forall k :: k in two <==> k in m)
    ensures Slots(e, m, one) != Slots(e, m, two)
  {
    var k, l, s :| WritesSlot(e, m, k, s) && WritesSlot(e, m, l, s) && EffectOf(e, k).Stored(m[k]) != EffectOf(e, l).Stored(m[l]);
    var _, a := VisitWith(m.Keys, order, k);
    var _, b := VisitWith(m.Keys, order, l);
    one, two := a, b;
    VisitCovers(m.Keys, one);
    VisitCovers(m.Keys, two);
    assert Slots(e, m, one)[s] == EffectOf(e, k).Stored(m[k]);
    assert Slots(e, m, two)[s] == EffectOf(e, l).Stored(m[l]);
  }

  ghost function SlotsOfVisit(e: Switches, m: Attribs, order: seq<string>): map<Slot, Content>
    requires IsVisit(m.Keys, order)
  {
    VisitCovers(m.Keys, order);
    Slots(e, m, order)
  }

  ghost predicate IsOrderFree(e: Switches, m: Attribs) {
    forall one, two :: IsVisit(m.Keys, one) && IsVisit(m.Keys, two) ==> SlotsOfVisit(e, m, one) == SlotsOfVisit(e, m, two)
  }

  lemma OrderFreeIfAgree(e: Switches, m: Attribs)
    requires Agree(e, m)
    ensures IsOrderFree(e, m)
  {
    forall one, two | IsVisit(m.Keys, one) && IsVisit(m.Keys, two)
      ensures SlotsOfVisit(e, m, one) == SlotsOfVisit(e, m, two)
    {
      VisitCovers(m.Keys, one);
      VisitCovers(m.Keys, two);
      SlotsIfAgree(e, m, one, two);
    }
  }

  /** All visits fill the variables alike exactly when the attributes of each variable agree. */
  lemma SlotsIndependentExactly(e: Switches, m: Attribs, order: seq<string>)
    requires IsVisit(m.Keys, order)
    ensures Agree(e, m) <==> IsOrderFree(e, m)
  {
    if Agree(e, m) {
      OrderFreeIfAgree(e, m);
    } else {
      var one, two := SlotsUnlessAgree(e, m, order);
      assert SlotsOfVisit(e, m, one) != SlotsOfVisit(e, m, two);
    }
  }

  /** All visits export the same, as often, agreeing or not. */
  lemma EnvironmentPermutes(e: Switches, m: Attribs, order: seq<string>, other: seq<string>)
    requires IsVisit(m.Keys, order) && IsVisit(m.Keys, other)
    ensures multiset(Environment(e, m, order)) == multiset(Environment(e, m, other))
  {
    GatherPermutes(order, other, k => ExportedBy(e, m, k));
  }

  /** A value that some spelling of a key holds ends up in the variable of the key, whatever the order. */
  lemma HeldIsRead(e: Switches, m: Attribs, order: seq<string>, key: string, s: Slot, value: string)
    requires IsVisit(m.Keys, order) && Agree(e, m) && EffectOf(e, key).Writes(s) && Holds(m, key, value)
    ensures (forall k :: k in order ==> k in m) && s in Slots(e, m, order)
    ensures Slots(e, m, order)[s] == EffectOf(e, key).Stored(value)
  {
    VisitCovers(m.Keys, order);
    var k :| IsSpelling(m, key, k) && m[k] == value;
    assert WritesSlot(e, m, k, s);
    var last := LastWriterStays(e, m, order, s);
  }

  // ---------------------------------------------------------------- coherent attributes agree

  /** No two keys of the switch are written to the same variable, but for the two names of the account. */
  ghost predicate OnlyAlias(e: Switches, account: string, alias: string) {
    forall f, g, s :: e(f).Writes(s) && e(g).Writes(s) ==> f == g || (f in {account, alias} && g in {account, alias})
  }

  /** Validation, together with one look at the two names of the account, makes the loop independent of the order. */
  lemma CoherentAgree(e: Switches, m: Attribs, account: string, alias: string)
    requires Coherent(m) && OnlyAlias(e, account, alias)
    requires e(account).Assign? && e(alias).Assign?
    requires forall k, l :: k in m && l in m && ToLower(k) == account && ToLower(l) == alias ==> m[k] == m[l]
    ensures Agree(e, m)
  {
  }
}
