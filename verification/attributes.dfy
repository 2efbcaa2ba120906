/** Volume attributes: a Go map that the driver reads without regard to the case of its keys, and in any order. Case is
    that of ASCII letters, the only keys that inline volumes may use. */
module Attributes {
  import opened Text
  import opened Visits

  type Attribs = map<string, string>

  /** strings.EqualFold on keys. */
  predicate Same(k: string, l: string) {
    ToLower(k) == ToLower(l)
  }

  /** The same letters, large or small, and the same everything else. */
  lemma SameExactly(k: string, l: string)
    ensures Same(k, l) <==> |k| == |l| && forall i :: 0 <= i < |k| ==>
              || k[i] == l[i]
              || ('A' <= k[i] <= 'Z' && l[i] as int == k[i] as int + 32)
              || ('A' <= l[i] <= 'Z' && k[i] as int == l[i] as int + 32)
  {
    var a, b := ToLower(k), ToLower(l);
    assert a == b <==> |a| == |b| && forall i :: 0 <= i < |a| ==> a[i] == b[i];
    SameLetters();
  }

  lemma SameLetters()
    ensures forall c: char, d: char :: LowerChar(c) == LowerChar(d) <==>
              c == d || ('A' <= c <= 'Z' && d as int == c as int + 32) || ('A' <= d <= 'Z' && c as int == d as int + 32)
  {
  }

  predicate IsSpelling(m: Attribs, key: string, k: string) {
    k in m && Same(k, key)
  }

  ghost predicate CoherentAt(m: Attribs, key: string) {
    forall k, l :: IsSpelling(m, key, k) && IsSpelling(m, key, l) ==> m[k] == m[l]
  }

  /** All spellings of a key hold the same value. */
  ghost predicate Coherent(m: Attribs) {
    forall k, l :: k in m && l in m && Same(k, l) ==> m[k] == m[l]
  }

  /** Some spelling of the key holds the value. */
  ghost predicate Holds(m: Attribs, key: string, value: string) {
    exists k :: IsSpelling(m, key, k) && m[k] == value
  }

  /** The first key of the visit that is a spelling of the given one. */
  function FirstSame(order: seq<string>, key: string): (n: nat)
    ensures n <= |order|
    ensures n < |order| ==> Same(order[n], key)
    ensures forall i :: 0 <= i < n ==> !Same(order[i], key)
  {
    if order == [] then 0 else if Same(order[0], key) then 0 else 1 + FirstSame(order[1..], key)
  }

  /** getValueInMap. */
  ghost function Lookup(m: Attribs, order: seq<string>, key: string): string
    requires IsVisit(m.Keys, order)
  {
    var n := FirstSame(order, key);
    if n < |order| then VisitHas(m.Keys, order, order[n]); m[order[n]] else ""
  }

  /** The spelling under which a value is written. */
  function Written(order: seq<string>, key: string): string {
    var n := FirstSame(order, key);
    if n < |order| then order[n] else key
  }

  /** setKeyValueInMap. */
  function Put(m: Attribs, order: seq<string>, key: string, value: string): Attribs {
    m[Written(order, key) := value]
  }

  /** A Go map, which methods share and update. */
  class AttributeMap {
    var m: Attribs

    constructor (m: Attribs)
      ensures this.m == m
    {
      this.m := m;
    }

    /** setKeyValueInMap, on a map that is not nil. */
    method SetKeyValue(order: seq<string>, key: string, value: string)
      requires IsVisit(m.Keys, order)
      modifies this
      ensures m == Put(old(m), order, key, value)
    {
      var i := 0;
      while i < |order|
        invariant 0 <= i <= |order|
        invariant forall j :: 0 <= j < i ==> !Same(order[j], key)
        invariant m == old(m)
      {
        if Same(order[i], key) {
          m := m[order[i] := value];
          return;
        }
        i := i + 1;
      }
      m := m[key := value];
    }

    /** getValueInMap, on a map that is not nil. */
    method GetValue(order: seq<string>, key: string) returns (value: string)
      requires IsVisit(m.Keys, order)
      ensures value == Lookup(m, order, key)
    {
      var i := 0;
      while i < |order|
        invariant 0 <= i <= |order|
        invariant forall j :: 0 <= j < i ==> !Same(order[j], key)
      {
        if Same(order[i], key) {
          VisitHas(m.Keys, order, order[i]);
          return m[order[i]];
        }
        i := i + 1;
      }
      value := "";
    }

    /** ValidateVolumeAttributeKeys, on a map that is not nil. */
    method ValidateKeys(order: seq<string>) returns (ok: bool)
      requires IsVisit(m.Keys, order)
      ensures ok <==> Coherent(m)
    {
      var seen: map<string, string> := map[];
      var i := 0;
      VisitCovers(m.Keys, order);
      while i < |order|
        invariant 0 <= i <= |order|
        invariant forall j :: 0 <= j < i ==> ToLower(order[j]) in seen && seen[ToLower(order[j])] == m[order[j]]
        invariant forall f :: f in seen ==> exists j :: 0 <= j < i && ToLower(order[j]) == f && m[order[j]] == seen[f]
      {
        var lower, value := ToLower(order[i]), m[order[i]];
        if lower in seen && seen[lower] != value {
          return false;
        }
        seen := seen[lower := value];
        i := i + 1;
      }
      AgreeingVisit(m, order, seen);
      return true;
    }

    /** A visit: Go picks each next key as it likes. */
    method Visit() returns (order: seq<string>)
      ensures IsVisit(m.Keys, order)
    {
      order := [];
      var left := m.Keys;
      while left != {}
        invariant left <= m.Keys && multiset(order) + multiset(left) == multiset(m.Keys)
        decreases |left|
      {
        var k :| k in left;
        order, left := order + [k], left - {k};
      }
    }

    /** What NodePublishVolume does to the attributes of an inline volume before it stages it: the secret is looked up in
        the pod's own namespace, and a volume without identity gets its account from that secret only. */
    method RestrictInline(f: Fields, namespace: string, fromSecretOnly: bool)
      requires f.Valid()
      modifies this
      ensures Holds(m, f.secretNamespace, namespace)
      ensures fromSecretOnly ==> Holds(m, f.keyFromSecret, "true") && Holds(m, f.account, "") && Holds(m, f.accountName, "")
      ensures forall k :: k !in f.All() && k in old(m) && (forall g :: g in f.All() ==> !Same(k, g))
                ==> k in m && m[k] == old(m)[k]
    {
      var order := Visit();
      PutKeeps(m, order, f.secretNamespace, namespace);
      SetKeyValue(order, f.secretNamespace, namespace);
      if fromSecretOnly {
        order := Visit();
        PutKeeps(m, order, f.keyFromSecret, "true");
        SetKeyValue(order, f.keyFromSecret, "true");
        order := Visit();
        PutKeeps(m, order, f.account, "");
        SetKeyValue(order, f.account, "");
        order := Visit();
        PutKeeps(m, order, f.accountName, "");
        SetKeyValue(order, f.accountName, "");
      }
    }
  }

  /** The fields that are overridden. */
  datatype Fields = Fields(secretNamespace: string, keyFromSecret: string, account: string, accountName: string)
  {
    function All(): set<string> {
      {secretNamespace, keyFromSecret, account, accountName}
    }

    /** They are different attributes. */
    predicate Valid() {
      && !Same(secretNamespace, keyFromSecret) && !Same(secretNamespace, account) && !Same(secretNamespace, accountName)
      && !Same(keyFromSecret, account) && !Same(keyFromSecret, accountName) && !Same(account, accountName)
    }
  }

  lemma AgreeingVisit(m: Attribs, order: seq<string>, seen: map<string, string>)
    requires IsVisit(m.Keys, order)
    requires forall k :: k in order <==> k in m
    requires forall j :: 0 <= j < |order| ==> ToLower(order[j]) in seen && seen[ToLower(order[j])] == m[order[j]]
    ensures Coherent(m)
  {
    forall k, l | k in m && l in m && Same(k, l) ensures m[k] == m[l] {
      assert k in order && l in order;
    }
  }

  // ---------------------------------------------------------------- reading

  /** On coherent attributes a lookup finds what any spelling of the key holds. */
  lemma LookupFinds(m: Attribs, order: seq<string>, key: string)
    requires IsVisit(m.Keys, order)
    ensures CoherentAt(m, key) ==> forall k :: IsSpelling(m, key, k) ==> Lookup(m, order, key) == m[k]
    ensures Lookup(m, order, key) == "" || Holds(m, key, Lookup(m, order, key))
  {
    var n := FirstSame(order, key);
    VisitCovers(m.Keys, order);
    if n < |order| {
      assert IsSpelling(m, key, order[n]);
    }
    forall k | IsSpelling(m, key, k) ensures n < |order| {
      assert k in order;
    }
  }

  lemma HeldIsFound(m: Attribs, order: seq<string>, key: string, value: string)
    requires IsVisit(m.Keys, order) && CoherentAt(m, key) && Holds(m, key, value)
    ensures Lookup(m, order, key) == value
  {
    LookupFinds(m, order, key);
  }

  /** A lookup does not depend on the order of the visit exactly when the spellings of the key agree. */
  lemma LookupIndependentExactly(m: Attribs, order: seq<string>, key: string)
    requires IsVisit(m.Keys, order)
    ensures CoherentAt(m, key) <==>
            forall other :: IsVisit(m.Keys, other) ==> Lookup(m, other, key) == Lookup(m, order, key)
  {
    if CoherentAt(m, key) {
      forall other | IsVisit(m.Keys, other) ensures Lookup(m, other, key) == Lookup(m, order, key) {
        LookupFinds(m, order, key);
        LookupFinds(m, other, key);
      }
    } else {
      var k, l :| IsSpelling(m, key, k) && IsSpelling(m, key, l) && m[k] != m[l];
      var first, _ := VisitWith(m.Keys, order, k);
      var second, _ := VisitWith(m.Keys, order, l);
      assert FirstSame(first, key) == 0 && FirstSame(second, key) == 0;
      assert Lookup(m, first, key) != Lookup(m, second, key);
    }
  }

  // ---------------------------------------------------------------- writing

  /** Writing establishes the value under some spelling of the key, and leaves all other keys alone. */
  lemma PutKeeps(m: Attribs, order: seq<string>, key: string, value: string)
    requires IsVisit(m.Keys, order)
    ensures Holds(Put(m, order, key, value), key, value)
    ensures forall k :: !Same(k, key) ==>
              (k in m <==> k in Put(m, order, key, value)) && (k in m ==> Put(m, order, key, value)[k] == m[k])
    ensures forall other, v :: !Same(other, key) && Holds(m, other, v) ==> Holds(Put(m, order, key, value), other, v)
  {
    var after := Put(m, order, key, value);
    assert IsSpelling(after, key, Written(order, key));
    forall other, v | !Same(other, key) && Holds(m, other, v) ensures Holds(after, other, v) {
      var k :| IsSpelling(m, other, k) && m[k] == v;
      assert IsSpelling(after, other, k) && after[k] == v;
    }
  }

  /** Attributes that pass validation again show the value set, whatever the orders. */
  lemma PutThenLookup(m: Attribs, order: seq<string>, key: string, value: string, other: seq<string>)
    requires IsVisit(m.Keys, order) && IsVisit(Put(m, order, key, value).Keys, other)
    requires Coherent(Put(m, order, key, value))
    ensures Lookup(Put(m, order, key, value), other, key) == value
  {
    PutKeeps(m, order, key, value);
    HeldIsFound(Put(m, order, key, value), other, key, value);
  }

  /** They pass exactly when no second spelling of the key is left behind with another value. */
  lemma PutStaysCoherentExactly(m: Attribs, order: seq<string>, key: string, value: string)
    requires IsVisit(m.Keys, order) && Coherent(m)
    ensures Coherent(Put(m, order, key, value)) <==>
            forall k :: IsSpelling(m, key, k) ==> k == Written(order, key) || m[k] == value
  {
    var after, written := Put(m, order, key, value), Written(order, key);
    if Coherent(after) {
      forall k | IsSpelling(m, key, k) ensures k == written || m[k] == value {
        assert Same(k, written) && k in after && written in after;
      }
    } else {
      var k, l :| k in after && l in after && Same(k, l) && after[k] != after[l];
      var spelling := if k == written then l else k;
      assert IsSpelling(m, key, spelling) && spelling != written && m[spelling] != value;
    }
  }

  // ---------------------------------------------------------------- adding the service account token

  /** NodeStageVolume adds the token under the field's own spelling when a lookup finds none. A coherent map stays so
      exactly when no other spelling of the field, necessarily with an empty value, is there. */
  lemma TokenStaysCoherentExactly(m: Attribs, order: seq<string>, field: string, token: string)
    requires IsVisit(m.Keys, order) && Coherent(m) && Lookup(m, order, field) == "" && token != ""
    ensures Coherent(m[field := token]) <==> forall k :: IsSpelling(m, field, k) ==> k == field
  {
    var after := m[field := token];
    LookupFinds(m, order, field);
    if Coherent(after) {
      forall k | IsSpelling(m, field, k) ensures k == field {
        assert Same(k, field) && k in after && field in after;
      }
    } else {
      var k, l :| k in after && l in after && Same(k, l) && after[k] != after[l];
      var spelling := if k == field then l else k;
      assert IsSpelling(m, field, spelling) && spelling != field;
    }
  }
}
