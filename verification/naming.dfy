/** The volume ID and the container name. */
module VolumeId {
  import opened Text
  import opened Wrappers

  datatype Fields6 = Fields6(
    resourceGroup: string, account: string, container: string, uuid: string, namespace: string, subscription: string)
  {
    function List(): seq<string> {
      [resourceGroup, account, container, uuid, namespace, subscription]
    }

    predicate HashFree() {
      && '#' !in resourceGroup && '#' !in account && '#' !in container
      && '#' !in uuid && '#' !in namespace && '#' !in subscription
    }
  }

  datatype Info = Info(resourceGroup: string, account: string, container: string, namespace: string, subscription: string)

  /** fmt.Sprintf with volumeIDTemplate. */
  function Encode(f: Fields6): string {
    f.resourceGroup + "#" + (f.account + "#" + (f.container + "#" + (f.uuid + "#" + (f.namespace + "#" + f.subscription))))
  }

  predicate IsHex(c: char) {
    '0' <= c <= '9' || 'a' <= c <= 'f' || 'A' <= c <= 'F'
  }

  /** subscriptionIDRegex: hexadecimal digits in groups of 8, 4, 4, 4 and 12. */
  predicate IsValidSubscriptionID(s: string) {
    |s| == 36 && forall i :: 0 <= i < 36 ==> if i in {8, 13, 18, 23} then s[i] == '-' else IsHex(s[i])
  }

  /** GetContainerInfo. */
  function Decode(id: string): (r: Result<Info>)
    ensures r.Ok? <==> |Split(id, "#")| >= 3
    ensures r.Ok? ==> r.value.subscription == "" || IsValidSubscriptionID(r.value.subscription)
  {
    var segments := Split(id, "#");
    if |segments| < 3 then Err("error parsing volume id")
    else Ok(Info(
      segments[0], segments[1], segments[2],
      if |segments| > 4 then segments[4] else "",
      if |segments| > 5 && segments[5] != "" && IsValidSubscriptionID(segments[5]) then segments[5] else ""))
  }

  /** Resource group, account and container come back exactly when those three hold no mark, whatever the others hold. */
  lemma DecodesAccountAndContainer(f: Fields6)
    ensures Decode(Encode(f)).Ok?
    ensures var i := Decode(Encode(f)).value;
            (i.resourceGroup == f.resourceGroup && i.account == f.account && i.container == f.container)
            <==> '#' !in f.resourceGroup && '#' !in f.account && '#' !in f.container
  {
    var rest := f.uuid + "#" + (f.namespace + "#" + f.subscription);
    var id := Encode(f);
    SplitPiecesClean(id, '#');
    SplitLong(f.resourceGroup, f.account, f.container + "#" + rest);
    if '#' !in f.resourceGroup && '#' !in f.account && '#' !in f.container {
      SplitThree(f.resourceGroup, f.account, f.container, '#', rest);
    } else {
      var segments := Split(id, "#");
      assert '#' !in segments[0] && '#' !in segments[1] && '#' !in segments[2];
    }
  }

  lemma SplitLong(a: string, b: string, rest: string)
    requires '#' in rest
    ensures |Split(a + "#" + (b + "#" + rest), "#")| >= 4
  {
    SplitAppend(a, '#', b + "#" + rest);
    SplitAppend(b, '#', rest);
    if Index(rest, "#") == -1 {
      NotInWhenNoIndex(rest, '#');
      assert false;
    }
  }

  /** With no mark in any field, the namespace comes back, and the subscription exactly when it is empty or valid. */
  lemma DecodesNamespaceAndSubscription(f: Fields6)
    requires f.HashFree()
    ensures Decode(Encode(f)).Ok?
    ensures var i := Decode(Encode(f)).value;
            && i.namespace == f.namespace
            && (i.subscription == f.subscription <==> f.subscription == "" || IsValidSubscriptionID(f.subscription))
            && (i.subscription != f.subscription ==> i.subscription == "")
  {
    SplitSix(f);
  }

  lemma SplitSix(f: Fields6)
    requires f.HashFree()
    ensures Split(Encode(f), "#") == f.List()
  {
    var last := f.uuid + "#" + (f.namespace + "#" + f.subscription);
    SplitThree(f.resourceGroup, f.account, f.container, '#', last);
    SplitLast(f.uuid, f.namespace, f.subscription);
    assert [f.resourceGroup, f.account, f.container] + [f.uuid, f.namespace, f.subscription] == f.List();
  }

  lemma SplitLast(a: string, b: string, c: string)
    requires '#' !in a && '#' !in b && '#' !in c
    ensures Split(a + "#" + (b + "#" + c), "#") == [a, b, c]
  {
    SplitHead(a, '#', b + "#" + c);
    SplitHead(b, '#', c);
    SplitNone(c, '#');
  }

  lemma EncodeInjective(f: Fields6, g: Fields6)
    requires f.HashFree() && g.HashFree()
    requires Encode(f) == Encode(g)
    ensures f == g
  {
    SplitSix(f);
    SplitSix(g);
    assert f.List() == g.List();
    assert forall i :: 0 <= i < 6 ==> f.List()[i] == g.List()[i];
  }

  lemma HexDigits(c: char)
    ensures IsHex(c) <==> c in "0123456789abcdefABCDEF"
  {
    if IsHex(c) {
      var i := if c <= '9' then c - '0' else if 'a' <= c then c - 'a' + 10 as char else c - 'A' + 16 as char;
      assert "0123456789abcdefABCDEF"[i as int] == c;
    }
  }

  /** Five groups of the right lengths make a valid subscription ID exactly when they are hexadecimal. */
  lemma GroupsAreValidExactly(a: string, b: string, c: string, d: string, e: string)
    requires |a| == 8 && |b| == 4 && |c| == 4 && |d| == 4 && |e| == 12
    ensures IsValidSubscriptionID(a + "-" + b + "-" + c + "-" + d + "-" + e) <==>
            forall x :: x in a + b + c + d + e ==> x in "0123456789abcdefABCDEF"
  {
    var s := a + "-" + b + "-" + c + "-" + d + "-" + e;
    GroupsOf(s, a, b, c, d, e);
    forall x ensures IsHex(x) <==> x in "0123456789abcdefABCDEF"
    {
      HexDigits(x);
    }
  }

  lemma GroupsOf(s: string, a: string, b: string, c: string, d: string, e: string)
    requires |a| == 8 && |b| == 4 && |c| == 4 && |d| == 4 && |e| == 12
    requires s == a + "-" + b + "-" + c + "-" + d + "-" + e
    ensures IsValidSubscriptionID(s) <==> forall x :: x in a + b + c + d + e ==> IsHex(x)
  {
    var t := a + b + c + d + e;
    assert forall i :: 0 <= i < 36 ==> (i in {8, 13, 18, 23} ==> s[i] == '-') && (i !in {8, 13, 18, 23} ==> s[i] == t[Place(i)]);
    assert forall k :: 0 <= k < 32 ==> t[k] == s[BackPlace(k)] && t[k] in t;
  }

  /** The place of a digit without the dashes before it, and back. */
  function Place(i: nat): int {
    i - (if i > 8 then 1 else 0) - (if i > 13 then 1 else 0) - (if i > 18 then 1 else 0) - (if i > 23 then 1 else 0)
  }

  function BackPlace(k: nat): nat {
    k + (if k >= 8 then 1 else 0) + (if k >= 12 then 1 else 0) + (if k >= 16 then 1 else 0) + (if k >= 20 then 1 else 0)
  }

  /** There are no others. */
  lemma ValidHasGroups(s: string) returns (a: string, b: string, c: string, d: string, e: string)
    requires IsValidSubscriptionID(s)
    ensures |a| == 8 && |b| == 4 && |c| == 4 && |d| == 4 && |e| == 12
    ensures s == a + "-" + b + "-" + c + "-" + d + "-" + e
  {
    a, b, c, d, e := s[..8], s[9..13], s[14..18], s[19..23], s[24..];
  }

  /** A mark in one field can be mistaken for a boundary. */
  lemma EncodeNotInjectiveWithMarks()
    ensures Encode(Fields6("a#b", "c", "d", "e", "f", "g")) == Encode(Fields6("a", "b", "c", "d", "e", "f#g"))
  {
  }
}

module ContainerName {
  import opened Text

  const MIN_LENGTH := 3
  const MAX_LENGTH := 63

  predicate IsLowerAlnum(c: char) {
    'a' <= c <= 'z' || '0' <= c <= '9'
  }

  predicate IsNameChar(c: char) {
    IsLowerAlnum(c) || c == '-'
  }

  /** checkContainerNameBeginAndEnd; the source indexes an empty name out of range. */
  predicate BeginsAndEndsWell(name: string)
    requires name != ""
  {
    IsLowerAlnum(name[0]) && IsLowerAlnum(name[|name| - 1])
  }

  /** ValidateContainerName: the naming rules as a regular expression and the ban on two dashes in a row. */
  predicate Validates(name: string) {
    || name == ""
    || (&& MIN_LENGTH <= |name| <= MAX_LENGTH
        && BeginsAndEndsWell(name)
        && (forall i :: 0 <= i < |name| ==> IsNameChar(name[i]))
        && !Contains(name, "--"))
  }

  /** strings.Replace(name, "--", "-", -1): one pass from the left. */
  function Squeeze(name: string): (r: string)
    ensures |r| <= |name|
  {
    if |name| < 2 then name
    else if name[0] == '-' && name[1] == '-' then "-" + Squeeze(name[2..])
    else [name[0]] + Squeeze(name[1..])
  }

  /** generateVolumeName; the source slices out of range when not even the suffix fits. */
  function GenerateVolumeName(clusterName: string, pvName: string, maxLength: nat): (r: string)
    requires |pvName| + 1 <= maxLength
    ensures var full := |clusterName| + |"-dynamic"| + 1 + |pvName|;
            |r| == if full <= maxLength then full else maxLength
    ensures |r| > |pvName| && r[|r| - |pvName|..] == pvName && r[|r| - |pvName| - 1] == '-'
    ensures r[..|r| - |pvName| - 1] <= clusterName + "-dynamic"
  {
    var prefix := clusterName + "-dynamic";
    var cut := if |pvName| + 1 + |prefix| > maxLength then prefix[..maxLength - |pvName| - 1] else prefix;
    var r := cut + "-" + pvName;
    assert r[|r| - |pvName|..] == pvName && r[..|cut|] == cut;
    r
  }

  /** The shape of a generated UUID string. */
  predicate IsUuid(s: string) {
    |s| == 36 && forall i :: 0 <= i < 36 ==>
      if i in {8, 13, 18, 23} then s[i] == '-' else '0' <= s[i] <= '9' || 'a' <= s[i] <= 'f'
  }

  /** The protocols CreateVolume lets through, after its default. */
  predicate IsSupportedProtocol(p: string) {
    p in {"fuse", "fuse2", "nfs", "aznfs", "nfsv3"}
  }

  /** The lower-cased, truncated name. */
  function Base(volumeName: string): string {
    var name := ToLower(volumeName);
    if |name| > MAX_LENGTH then name[..MAX_LENGTH] else name
  }

  predicate IsRegenerated(volumeName: string)
    requires volumeName != ""
  {
    !BeginsAndEndsWell(Base(volumeName)) || |Base(volumeName)| < MIN_LENGTH
  }

  /** getValidContainerName; `uuid` is the generated one, used only when the name must be replaced. */
  function GetValidContainerName(volumeName: string, protocol: string, uuid: string): string
    requires volumeName != ""
    requires IsUuid(uuid)
  {
    Squeeze(if IsRegenerated(volumeName) then GenerateVolumeName("pvc-" + protocol, uuid, 63) else Base(volumeName))
  }

  // ---------------------------------------------------------------- squeezing

  function Dashes(n: nat): string {
    if n == 0 then "" else "-" + Dashes(n - 1)
  }

  lemma {:induction false} SqueezeDashes(n: nat, b: string)
    requires b == "" || b[0] != '-'
    ensures Squeeze(Dashes(n) + b) == Dashes((n + 1) / 2) + Squeeze(b)
  {
    if n < 2 {
      SqueezeFewDashes(n, b);
    } else {
      var fewer, k := Dashes(n - 2) + b, (n - 1) / 2;
      TwoDashes(n, b);
      SqueezePair(fewer);
      SqueezeDashes(n - 2, b);
      assert Squeeze(fewer) == Dashes(k) + Squeeze(b);
      OneDash(k, Squeeze(b));
    }
  }

  lemma SqueezeFewDashes(n: nat, b: string)
    requires n < 2 && (b == "" || b[0] != '-')
    ensures Squeeze(Dashes(n) + b) == Dashes(n) + Squeeze(b)
  {
    if n == 0 {
      assert Dashes(n) + b == b;
    } else {
      assert Dashes(1) == "-" && (Dashes(1) + b)[1..] == b;
    }
  }

  lemma TwoDashes(n: nat, b: string)
    requires n >= 2
    ensures Dashes(n) + b == "--" + (Dashes(n - 2) + b)
  {
    assert Dashes(n) == "-" + ("-" + Dashes(n - 2));
  }

  lemma OneDash(k: nat, b: string)
    ensures "-" + (Dashes(k) + b) == Dashes(k + 1) + b
  {
  }

  lemma SqueezePair(s: string)
    ensures Squeeze("--" + s) == "-" + Squeeze(s)
  {
    assert ("--" + s)[2..] == s;
  }

  /** Squeezing works separately on text before and after a point that no pair of dashes straddles. */
  lemma {:induction false} SqueezeAppend(a: string, b: string)
    requires a == "" || a[|a| - 1] != '-'
    ensures Squeeze(a + b) == Squeeze(a) + Squeeze(b)
    decreases |a|
  {
    if a == "" {
      assert a + b == b;
    } else if |a| == 1 {
      assert (a + b)[1..] == b;
    } else if a[0] == '-' && a[1] == '-' {
      assert (a + b)[2..] == a[2..] + b;
      SqueezeAppend(a[2..], b);
    } else {
      assert (a + b)[1..] == a[1..] + b;
      SqueezeAppend(a[1..], b);
    }
  }

  /** A run of n dashes shrinks to half of n, rounded up; what surrounds it is squeezed on its own. */
  lemma SqueezeRun(a: string, n: nat, b: string)
    requires a == "" || a[|a| - 1] != '-'
    requires b == "" || b[0] != '-'
    ensures Squeeze(a + Dashes(n) + b) == Squeeze(a) + Dashes((n + 1) / 2) + Squeeze(b)
  {
    Assoc(a, Dashes(n), b);
    SqueezeAppend(a, Dashes(n) + b);
    SqueezeDashes(n, b);
    Assoc(Squeeze(a), Dashes((n + 1) / 2), Squeeze(b));
  }

  /** The result holds two dashes in a row exactly when the name held three. */
  lemma {:induction false} SqueezeExactly(s: string)
    ensures Contains(Squeeze(s), "--") <==> Contains(s, "---")
    ensures s != "" ==> Squeeze(s) != "" && Squeeze(s)[0] == s[0] && Squeeze(s)[|Squeeze(s)| - 1] == s[|s| - 1]
    ensures forall c :: c in Squeeze(s) <==> c in s
  {
    SqueezeKeepsEnds(s);
    if |s| >= 2 && s[0] == '-' && s[1] == '-' {
      SqueezeExactly(s[2..]);
      DoubleHead('-', Squeeze(s[2..]));
      TripleHead(s);
      TripleHead(s[1..]);
      assert s[1..][1..] == s[2..];
    } else if |s| >= 2 {
      SqueezeExactly(s[1..]);
      DoubleHead(s[0], Squeeze(s[1..]));
      TripleHead(s);
    }
  }

  lemma {:induction false} SqueezeKeepsEnds(s: string)
    ensures s != "" ==> Squeeze(s) != "" && Squeeze(s)[0] == s[0] && Squeeze(s)[|Squeeze(s)| - 1] == s[|s| - 1]
    ensures forall c :: c in Squeeze(s) <==> c in s
  {
    if |s| >= 2 {
      SqueezeKeepsEnds(if s[0] == '-' && s[1] == '-' then s[2..] else s[1..]);
    }
  }

  lemma DoubleHead(c: char, t: string)
    ensures Contains([c] + t, "--") <==> (c == '-' && t != "" && t[0] == '-') || Contains(t, "--")
  {
    var s := [c] + t;
    assert s[1..] == t;
    if t != "" {
      assert s[..2] == [c, t[0]];
    }
  }

  lemma TripleHead(s: string)
    requires s != ""
    ensures Contains(s, "---") <==> (|s| >= 3 && s[0] == '-' && s[1] == '-' && s[2] == '-') || Contains(s[1..], "---")
  {
  }

  /** Squeezing a name that begins and ends well and has at least three characters leaves at least three. */
  lemma {:induction false} SqueezeLength(s: string)
    requires |s| >= MIN_LENGTH && s[0] != '-' && s[|s| - 1] != '-'
    ensures |Squeeze(s)| >= MIN_LENGTH
  {
    SqueezeExactly(s[1..]);
    if s[1] == '-' && s[2] == '-' {
      SqueezeExactly(s[3..]);
    } else {
      SqueezeExactly(s[2..]);
    }
  }

  // ---------------------------------------------------------------- generated names are valid

  /** No two dashes in a row, position by position. */
  predicate HasSingleDashes(s: string) {
    forall i :: 0 <= i < |s| - 1 ==> s[i] != '-' || s[i + 1] != '-'
  }

  lemma {:induction false} SqueezeFixed(s: string)
    requires HasSingleDashes(s)
    ensures Squeeze(s) == s
  {
    if |s| >= 2 {
      forall i | 0 <= i < |s[1..]| - 1 ensures s[1..][i] != '-' || s[1..][i + 1] != '-' {
        assert s[1..][i] == s[i + 1] && s[1..][i + 1] == s[i + 2];
      }
      SqueezeFixed(s[1..]);
    }
  }

  /** The name that replaces one that begins or ends badly. */
  function Replacement(protocol: string, uuid: string): string {
    "pvc-" + protocol + "-dynamic" + "-" + uuid
  }

  lemma ReplacementFits(protocol: string, uuid: string)
    requires IsSupportedProtocol(protocol) && IsUuid(uuid)
    ensures GenerateVolumeName("pvc-" + protocol, uuid, 63) == Replacement(protocol, uuid)
    ensures MIN_LENGTH <= |Replacement(protocol, uuid)| <= MAX_LENGTH
  {
  }

  lemma PrefixIsPlain(protocol: string)
    requires IsSupportedProtocol(protocol)
    ensures var prefix := "pvc-" + protocol + "-dynamic";
            HasSingleDashes(prefix) && prefix[0] == 'p' && prefix[|prefix| - 1] == 'c' && forall c :: c in prefix ==> IsNameChar(c)
  {
  }

  lemma UuidIsPlain(uuid: string)
    requires IsUuid(uuid)
    ensures HasSingleDashes(uuid) && IsLowerAlnum(uuid[0]) && IsLowerAlnum(uuid[35]) && forall c :: c in uuid ==> IsNameChar(c)
  {
  }

  /** A dash between two names keeps dashes single. */
  lemma DashBetween(a: string, b: string)
    requires HasSingleDashes(a) && HasSingleDashes(b) && a != "" && b != "" && a[|a| - 1] != '-' && b[0] != '-'
    ensures HasSingleDashes(a + "-" + b)
  {
    var s := a + "-" + b;
    forall i | 0 <= i < |s| - 1 ensures s[i] != '-' || s[i + 1] != '-' {
      if i > |a| {
        assert s[i] == b[i - |a| - 1] && s[i + 1] == b[i - |a|];
      }
    }
  }

  lemma ReplacementIsPlain(protocol: string, uuid: string)
    requires IsSupportedProtocol(protocol) && IsUuid(uuid)
    ensures HasSingleDashes(Replacement(protocol, uuid)) && Squeeze(Replacement(protocol, uuid)) == Replacement(protocol, uuid)
  {
    PrefixIsPlain(protocol);
    UuidIsPlain(uuid);
    DashBetween("pvc-" + protocol + "-dynamic", uuid);
    SqueezeFixed(Replacement(protocol, uuid));
  }

  /** Each protocol leaves room for the full UUID, so a replacement name is always valid. */
  lemma RegeneratedIsValid(protocol: string, uuid: string)
    requires IsSupportedProtocol(protocol) && IsUuid(uuid)
    ensures Validates(Squeeze(GenerateVolumeName("pvc-" + protocol, uuid, 63)))
  {
    var g, prefix := Replacement(protocol, uuid), "pvc-" + protocol + "-dynamic";
    ReplacementFits(protocol, uuid);
    ReplacementIsPlain(protocol, uuid);
    PrefixIsPlain(protocol);
    UuidIsPlain(uuid);
    assert g[0] == prefix[0] && g[|g| - 1] == uuid[35];
    forall i | 0 <= i < |g| ensures IsNameChar(g[i]) {
      assert g[i] == '-' || g[i] in prefix || g[i] in uuid;
    }
    NoDouble(g);
  }

  lemma NoDouble(g: string)
    requires HasSingleDashes(g)
    ensures !Contains(g, "--")
  {
    forall i ensures !OccursAt(g, "--", i) {
      if 0 <= i && i + 2 <= |g| {
        assert g[i..i + 2][0] == g[i] && g[i..i + 2][1] == g[i + 1];
      }
    }
  }

  /** Different UUIDs make different names. */
  lemma RegeneratedDiffers(protocol: string, uuid: string, other: string)
    requires IsSupportedProtocol(protocol) && IsUuid(uuid) && IsUuid(other) && uuid != other
    ensures Squeeze(GenerateVolumeName("pvc-" + protocol, uuid, 63)) != Squeeze(GenerateVolumeName("pvc-" + protocol, other, 63))
  {
    ReplacementFits(protocol, uuid);
    ReplacementFits(protocol, other);
    ReplacementIsPlain(protocol, uuid);
    ReplacementIsPlain(protocol, other);
    var a, b := Replacement(protocol, uuid), Replacement(protocol, other);
    assert a[|a| - 36..] == uuid && b[|b| - 36..] == other;
  }

  lemma NameCharsAt(s: string)
    ensures (forall c :: c in s ==> IsNameChar(c)) <==> forall i :: 0 <= i < |s| ==> IsNameChar(s[i])
  {
    forall i | 0 <= i < |s| ensures s[i] in s {
    }
  }

  lemma SqueezeValid(s: string)
    requires MIN_LENGTH <= |s| <= MAX_LENGTH && BeginsAndEndsWell(s)
    ensures Validates(Squeeze(s)) <==> !Contains(s, "---") && forall i :: 0 <= i < |s| ==> IsNameChar(s[i])
  {
    var r := Squeeze(s);
    SqueezeExactly(s);
    SqueezeLength(s);
    NameCharsAt(s);
    ValidatesExactly(r);
  }

  lemma ValidatesExactly(r: string)
    requires MIN_LENGTH <= |r| <= MAX_LENGTH && BeginsAndEndsWell(r)
    ensures Validates(r) <==> !Contains(r, "--") && forall c :: c in r ==> IsNameChar(c)
  {
    NameCharsAt(r);
  }

  /** For every name the result is valid exactly when the name had to be replaced, or its lower-cased, truncated form has
      only letters, digits and dashes and no three dashes in a row; unless replaced it does not depend on the UUID. */
  lemma ContainerNameValidExactly(volumeName: string, protocol: string, uuid: string, other: string)
    requires volumeName != "" && IsSupportedProtocol(protocol) && IsUuid(uuid) && IsUuid(other)
    ensures Validates(GetValidContainerName(volumeName, protocol, uuid)) <==>
            || IsRegenerated(volumeName)
            || (!Contains(Base(volumeName), "---") && forall i :: 0 <= i < |Base(volumeName)| ==> IsNameChar(Base(volumeName)[i]))
    ensures GetValidContainerName(volumeName, protocol, uuid) == GetValidContainerName(volumeName, protocol, other)
            <==> !IsRegenerated(volumeName) || uuid == other
  {
    if IsRegenerated(volumeName) {
      RegeneratedIsValid(protocol, uuid);
      if uuid != other {
        RegeneratedDiffers(protocol, uuid, other);
      }
    } else {
      SqueezeValid(Base(volumeName));
    }
  }

  /** The name that is used, unless it must be replaced: at most 63 characters of the volume name, in lower case. It must
      be replaced exactly when it is shorter than three characters or its ends are not ASCII letters or digits. */
  lemma BaseExactly(v: string)
    requires v != ""
    ensures |Base(v)| == if |v| <= 63 then |v| else 63
    ensures forall i :: 0 <= i < |Base(v)| ==>
              if 'A' <= v[i] <= 'Z' then Base(v)[i] as int == v[i] as int + 32 else Base(v)[i] == v[i]
    ensures IsRegenerated(v) <==>
            var last := v[|Base(v)| - 1];
            || |v| < 3
            || !('a' <= v[0] <= 'z' || 'A' <= v[0] <= 'Z' || '0' <= v[0] <= '9')
            || !('a' <= last <= 'z' || 'A' <= last <= 'Z' || '0' <= last <= '9')
  {
    LowerMoves();
  }

  lemma LowerMoves()
    ensures forall c: char :: if 'A' <= c <= 'Z' then LowerChar(c) as int == c as int + 32 else LowerChar(c) == c
  {
  }

  /** No capital letter is left. */
  lemma ResultIsLower(v: string, protocol: string, uuid: string)
    requires v != "" && IsSupportedProtocol(protocol) && IsUuid(uuid)
    ensures forall c :: c in GetValidContainerName(v, protocol, uuid) ==> !('A' <= c <= 'Z')
  {
    if IsRegenerated(v) {
      RegeneratedIsValid(protocol, uuid);
      NameCharsAt(GetValidContainerName(v, protocol, uuid));
    } else {
      SqueezeExactly(Base(v));
      BaseExactly(v);
    }
  }

  /** The naming rules, character by character. */
  lemma ValidatesByRule(name: string)
    requires name != ""
    ensures Validates(name) <==>
            && 3 <= |name| <= 63 && name[0] != '-' && name[|name| - 1] != '-'
            && (forall i :: 0 <= i < |name| ==> 'a' <= name[i] <= 'z' || '0' <= name[i] <= '9' || name[i] == '-')
            && (forall i :: 0 <= i < |name| - 1 ==> name[i] != '-' || name[i + 1] != '-')
  {
    if HasSingleDashes(name) {
      NoDouble(name);
    } else {
      var i :| 0 <= i < |name| - 1 && name[i] == '-' && name[i + 1] == '-';
      assert name[i..i + 2] == "--";
      assert OccursAt(name, "--", i);
    }
  }

  /** A name that meets the rules already is kept as it is. */
  lemma ValidIsKept(v: string, protocol: string, uuid: string)
    requires v != "" && Validates(v) && IsUuid(uuid)
    ensures GetValidContainerName(v, protocol, uuid) == v
  {
    assert Base(v) == v by { BaseExactly(v); }
    forall i | 0 <= i < |v| - 1 ensures v[i] != '-' || v[i + 1] != '-' {
      assert !OccursAt(v, "--", i);
      assert v[i..i + 2] == [v[i], v[i + 1]];
    }
    SqueezeFixed(v);
  }

  /** Three dashes survive as two, against the naming rule stated beside the code. */
  lemma TripleDashIsInvalid(protocol: string, uuid: string)
    requires IsUuid(uuid)
    ensures GetValidContainerName("a---b", protocol, uuid) == "a--b"
    ensures !Validates("a--b")
  {
    assert ToLower("a---b") == "a---b";
    assert Squeeze("b") == "b";
    assert "a---b"[1..] == "---b" && "---b"[2..] == "-b" && "-b"[1..] == "b";
    assert "a--b"[1..3] == "--";
    assert OccursAt("a--b", "--", 1);
  }
}
