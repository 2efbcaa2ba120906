/** The proxy's side of a blobfuse2 mount: extra flags and the driver's telemetry tag are added to the argument string. */
module Telemetry {
  import opened Text
  import opened MountArgv

  /** The telemetry flag, the prefix of the driver's tag, and the driver's version. */
  datatype Tag = Tag(flag: string, prefix: string, version: string)
  {
    ghost predicate Valid() {
      IsWord(flag) && IsWord(prefix)
    }

    function Text(): string {
      prefix + version
    }

    function FlagEq(): string {
      flag + "="
    }

    function Entry(): string {
      FlagEq() + Text()
    }
  }

  /** The first field that begins with the given text, or the number of fields. */
  function FirstWith(ws: seq<string>, p: string): (i: nat)
    ensures i <= |ws|
    ensures i < |ws| ==> HasPrefix(ws[i], p)
    ensures forall j :: 0 <= j < i ==> !HasPrefix(ws[j], p)
  {
    if ws == [] || HasPrefix(ws[0], p) then 0 else 1 + FirstWith(ws[1..], p)
  }

  /** The user's telemetry value with the driver's tag in front. */
  function Retagged(t: Tag, w: string): string
    requires HasPrefix(w, t.FlagEq())
  {
    t.Entry() + "," + w[|t.FlagEq()|..]
  }

  /** The list of arguments with the tag added where it belongs. */
  function TagWords(t: Tag, args: string, ws: seq<string>): seq<string> {
    if !Contains(args, t.flag) then ws + [t.Entry()]
    else
      var i := FirstWith(ws, t.FlagEq());
      if Contains(args, t.prefix) || i == |ws| then ws else ws[i := Retagged(t, ws[i])]
  }

  /** What addTelemetryTagToArgs must return. */
  function Tagged(t: Tag, args: string): string {
    if !Contains(args, t.flag) then args + " " + t.Entry()
    else if Contains(args, t.prefix) || FirstWith(Fields(args), t.FlagEq()) == |Fields(args)| then args
    else Join(TagWords(t, args, Fields(args)), " ")
  }

  /** addTelemetryTagToArgs. */
  method AddTelemetryTag(t: Tag, args: string) returns (r: string)
    requires t.Valid()
    ensures r == Tagged(t, args)
  {
    if !Contains(args, t.flag) {
      return args + " " + t.Entry();
    }
    if Contains(args, t.prefix) {
      return args;
    }
    var fields := Fields(args);
    var i := 0;
    while i < |fields| && !HasPrefix(fields[i], t.FlagEq())
      invariant 0 <= i <= |fields|
      invariant forall j :: 0 <= j < i ==> !HasPrefix(fields[j], t.FlagEq())
    {
      i := i + 1;
    }
    assert FirstWith(fields, t.FlagEq()) == i;
    if i == |fields| {
      return args;
    }
    var value := fields[i][|t.FlagEq()|..];
    InnerCheckNeverBlocks(t, args, i);
    if !Contains(value, t.Text()) {
      return Join(fields[i := t.FlagEq() + t.Text() + "," + value], " ");
    }
    return args;
  }

  /** What a field contains, the string contains. */
  lemma FieldContains(s: string, i: nat, sub: string)
    requires i < |Fields(s)| && Contains(Fields(s)[i], sub)
    ensures Contains(s, sub)
  {
    var w := Fields(s)[i];
    var k := FieldWithin(s, i);
    assert s[..k] + s[k..k + |w|] + s[k + |w|..] == s;
    ContainsWithin(s[..k], w, s[k + |w|..], sub);
  }

  lemma SuffixContains(w: string, n: nat, sub: string)
    requires n <= |w| && Contains(w[n..], sub)
    ensures Contains(w, sub)
  {
    ContainsWithin(w[..n], w[n..], "", sub);
    assert w[..n] + w[n..] + "" == w;
  }

  /** Where the prefix is nowhere in the arguments, the tag is in no telemetry value. */
  lemma InnerCheckNeverBlocks(t: Tag, args: string, i: nat)
    requires t.Valid() && i < |Fields(args)| && HasPrefix(Fields(args)[i], t.FlagEq())
    requires !Contains(args, t.prefix)
    ensures !Contains(Fields(args)[i][|t.FlagEq()|..], t.Text())
  {
    var value := Fields(args)[i][|t.FlagEq()|..];
    if Contains(value, t.Text()) {
      ContainsPrefix(value, t.Text(), t.prefix);
      SuffixContains(Fields(args)[i], |t.FlagEq()|, t.prefix);
      FieldContains(args, i, t.prefix);
    }
  }

  // ---------------------------------------------------------------- tagging twice

  lemma {:induction false} ContainsInJoin(ws: seq<string>, i: nat, sub: string)
    requires i < |ws| && Contains(ws[i], sub)
    ensures Contains(Join(ws, " "), sub)
  {
    if |ws| == 1 {
    } else if i == 0 {
      ContainsWithin("", ws[0], " " + Join(ws[1..], " "), sub);
      assert "" + ws[0] + (" " + Join(ws[1..], " ")) == Join(ws, " ");
    } else {
      ContainsInJoin(ws[1..], i - 1, sub);
      ContainsWithin(ws[0] + " ", Join(ws[1..], " "), "", sub);
      assert ws[0] + " " + Join(ws[1..], " ") + "" == Join(ws, " ");
    }
  }

  lemma EntryContains(t: Tag, a: string, b: string)
    requires t.Valid()
    ensures Contains(a + t.Entry() + b, t.flag) && Contains(a + t.Entry() + b, t.prefix)
  {
    var e := t.Entry();
    assert e[0..|t.flag|] == t.flag;
    ContainsAt(e, t.flag, 0);
    assert e == t.FlagEq() + t.prefix + t.version;
    assert e[|t.FlagEq()|..|t.FlagEq()| + |t.prefix|] == t.prefix;
    ContainsAt(e, t.prefix, |t.FlagEq()|);
    ContainsWithin(a, e, b, t.flag);
    ContainsWithin(a, e, b, t.prefix);
  }

  /** Tagging is idempotent on every string, whatever the version. */
  lemma TaggingIsIdempotent(t: Tag, args: string)
    requires t.Valid()
    ensures Tagged(t, Tagged(t, args)) == Tagged(t, args)
  {
    var r := Tagged(t, args);
    var ws := Fields(args);
    var i := FirstWith(ws, t.FlagEq());
    if !Contains(args, t.flag) {
      EntryContains(t, args + " ", "");
      assert r == args + " " + t.Entry() + "";
    } else if !Contains(args, t.prefix) && i < |ws| {
      var w := Retagged(t, ws[i]);
      EntryContains(t, "", "," + ws[i][|t.FlagEq()|..]);
      assert "" + t.Entry() + ("," + ws[i][|t.FlagEq()|..]) == w;
      ContainsInJoin(ws[i := w], i, t.flag);
      ContainsInJoin(ws[i := w], i, t.prefix);
    }
  }

  // ---------------------------------------------------------------- what happens to the arguments

  lemma RetaggedIsWord(t: Tag, w: string)
    requires t.Valid() && SpaceFree(t.version) && IsWord(w) && HasPrefix(w, t.FlagEq())
    ensures IsWord(t.Entry()) && IsWord(Retagged(t, w))
  {
    var value := w[|t.FlagEq()|..];
    assert w == t.FlagEq() + value;
    assert SpaceFree("=") && SpaceFree(",");
    SpaceFreeAppend(t.flag, "=");
    SpaceFreeAppend(t.prefix, t.version);
    SpaceFreeAppend(t.FlagEq(), t.Text());
    SpaceFreeAppend(t.Entry(), ",");
    forall k | 0 <= k < |value| ensures !IsSpace(value[k]) {
      assert value[k] == w[|t.FlagEq()| + k];
    }
    SpaceFreeAppend(t.Entry() + ",", value);
  }

  lemma EntryIsWord(t: Tag)
    requires t.Valid() && SpaceFree(t.version)
    ensures IsWord(t.Entry())
  {
    assert SpaceFree("=");
    SpaceFreeAppend(t.flag, "=");
    SpaceFreeAppend(t.prefix, t.version);
    SpaceFreeAppend(t.FlagEq(), t.Text());
  }

  lemma TagWordsAreWords(t: Tag, args: string, ws: seq<string>)
    requires t.Valid() && SpaceFree(t.version) && forall w :: w in ws ==> IsWord(w)
    ensures forall w :: w in TagWords(t, args, ws) ==> IsWord(w)
  {
    EntryIsWord(t);
    var i := FirstWith(ws, t.FlagEq());
    if i < |ws| {
      assert ws[i] in ws;
      RetaggedIsWord(t, ws[i]);
    }
  }

  /** The fields stay as they are, except that one tag is appended, or the first telemetry value gains the tag in front
      and keeps what the user wrote. */
  lemma TaggedFields(t: Tag, args: string)
    requires t.Valid() && SpaceFree(t.version)
    ensures Fields(Tagged(t, args)) == TagWords(t, args, Fields(args))
  {
    TagWordsAreWords(t, args, Fields(args));
    EntryIsWord(t);
    if !Contains(args, t.flag) {
      FieldsAppend(args, ' ', t.Entry());
      FieldsWord(t.Entry());
    } else {
      FieldsJoin(TagWords(t, args, Fields(args)));
    }
  }

  /** The first telemetry value of the user keeps its place and its text, after the driver's tag and a comma; all other
      fields are as before. */
  lemma UsersValueIsKept(t: Tag, args: string, i: nat, value: string)
    requires t.Valid() && SpaceFree(t.version) && !Contains(args, t.prefix)
    requires i < |Fields(args)| && Fields(args)[i] == t.flag + "=" + value
    requires forall j :: 0 <= j < i ==> !HasPrefix(Fields(args)[j], t.flag + "=")
    ensures Fields(Tagged(t, args)) == Fields(args)[i := t.flag + "=" + t.prefix + t.version + "," + value]
  {
    var ws := Fields(args);
    assert ws[i][0..|t.flag|] == t.flag;
    ContainsAt(ws[i], t.flag, 0);
    FieldContains(args, i, t.flag);
    assert FirstWith(ws, t.FlagEq()) == i;
    assert ws[i][|t.FlagEq()|..] == value;
    TaggedFields(t, args);
    Assoc(t.FlagEq(), t.prefix, t.version);
  }

  /** Without the flag one tag comes last. With the flag nothing changes if the tag's prefix is there already, or if no field
      gives the flag a value. */
  lemma TagIsAppendedExactly(t: Tag, args: string)
    requires t.Valid() && SpaceFree(t.version)
    ensures Fields(Tagged(t, args)) == Fields(args) + [t.flag + "=" + t.prefix + t.version] <==> !Contains(args, t.flag)
    ensures Contains(args, t.flag) && Contains(args, t.prefix) ==> Tagged(t, args) == args
    ensures Contains(args, t.flag) && (forall w :: w in Fields(args) ==> !HasPrefix(w, t.flag + "=")) ==> Tagged(t, args) == args
  {
    var ws := Fields(args);
    TaggedFields(t, args);
    Assoc(t.FlagEq(), t.prefix, t.version);
    if FirstWith(ws, t.FlagEq()) < |ws| {
      assert ws[FirstWith(ws, t.FlagEq())] in ws;
    }
  }

  /** The source's tag. */
  function SourceTag(version: string): Tag {
    Tag("--telemetry", "blobpartner-csi/", version)
  }

  lemma SourceTagValid(version: string)
    ensures SourceTag(version).Valid()
  {
  }

  lemma SourceTagText()
    ensures "--telemetry" + "=" + "blobpartner-csi/" == "--telemetry=blobpartner-csi/"
  {
  }

  /** Read with this tag, the laws above speak of `--telemetry=blobpartner-csi/` and the version. */
  lemma SourceTagIsAppended(t: Tag, version: string, args: string)
    requires t == SourceTag(version) && SpaceFree(version) && !Contains(args, t.flag)
    ensures Fields(Tagged(t, args)) == Fields(args) + ["--telemetry=blobpartner-csi/" + version]
  {
    SourceTagValid(version);
    SourceTagText();
    TagIsAppendedExactly(t, args);
  }

  // ---------------------------------------------------------------- MountAzureBlob

  /** A flag is appended when its name is nowhere in the arguments. */
  function WithFlag(args: string, name: string): string {
    if Contains(args, name) then args else args + " " + (name + "=true")
  }

  function MissingFlag(args: string, name: string): seq<string> {
    if Contains(args, name) then [] else [name + "=true"]
  }

  /** The argument string of a blobfuse2 mount before white space is collapsed. */
  function ProxyArgs(t: Tag, first: string, second: string, args: string): string {
    Tagged(t, WithFlag(WithFlag("mount " + args, first), second))
  }

  lemma WithFlagJoin(os: seq<string>, name: string)
    requires os != []
    ensures WithFlag(Join(os, " "), name) == Join(os + MissingFlag(Join(os, " "), name), " ")
  {
    if Contains(Join(os, " "), name) {
      assert os + [] == os;
    } else {
      JoinSnoc(os, name + "=true");
    }
  }

  /** The options the proxy puts together: "mount", the driver's list, and the two flags where they are missing. */
  function ProxyOptions(first: string, second: string, os: seq<string>): seq<string> {
    var one := ["mount"] + os + MissingFlag(Join(["mount"] + os, " "), first);
    one + MissingFlag(Join(one, " "), second)
  }

  /** The argument vector of blobfuse2: the arguments of all options in order, with the telemetry tag put in. */
  lemma ProxyArgv(t: Tag, first: string, second: string, os: seq<string>)
    requires t.Valid() && SpaceFree(t.version) && IsWord(first) && IsWord(second)
    requires os != [] && forall o :: o in os ==> IsShaped(o) && PlainSpaces(o)
    ensures var all := ProxyOptions(first, second, os);
            Argv(ProxyArgs(t, first, second, Join(os, " "))) == TagWords(t, Join(all, " "), ArgvOfAll(all))
  {
    var mount := ["mount"] + os;
    assert mount[1..] == os && Join(mount, " ") == "mount" + " " + Join(os, " ");
    assert "mount " + Join(os, " ") == "mount" + " " + Join(os, " ");
    WithFlagJoin(mount, first);
    var one := mount + MissingFlag(Join(mount, " "), first);
    WithFlagJoin(one, second);
    var all := ProxyOptions(first, second, os);
    FlagIsPlain(first);
    FlagIsPlain(second);
    assert forall o :: o in all ==> o == "mount" || o in os || o == first + "=true" || o == second + "=true";
    assert IsWord("mount") && PlainSpaces("mount");
    TaggedArgv(t, all);
  }

  /** A flag that is nowhere in the arguments is switched on by one more field. */
  lemma MissingFlagIsOn(args: string, name: string)
    requires IsWord(name)
    ensures Contains(args, name) ==> WithFlag(args, name) == args
    ensures !Contains(args, name) ==> Fields(WithFlag(args, name)) == Fields(args) + [name + "=true"]
  {
    FlagIsPlain(name);
    FieldsAppend(args, ' ', name + "=true");
    FieldsWord(name + "=true");
  }

  /** Options that mention neither the two flags nor telemetry: blobfuse2 is called with "mount", the arguments of the options,
      the two flags switched on, and the tag. */
  lemma ProxyArgvOfPlainOptions(t: Tag, first: string, second: string, os: seq<string>)
    requires t.Valid() && SpaceFree(t.version) && IsWord(first) && IsWord(second)
    requires os != [] && forall o :: o in os ==> IsShaped(o) && PlainSpaces(o)
    requires !Contains(Join(["mount"] + os, " "), first)
    requires !Contains(Join(["mount"] + os + [first + "=true"], " "), second)
    requires !Contains(Join(["mount"] + os + [first + "=true", second + "=true"], " "), t.flag)
    ensures Argv(ProxyArgs(t, first, second, Join(os, " ")))
         == ["mount"] + ArgvOfAll(os) + [first + "=true", second + "=true"] + [t.flag + "=" + t.prefix + t.version]
  {
    ProxyArgv(t, first, second, os);
    BothFlagsMissing(first, second, os);
    NewTag(t, Join(ProxyOptions(first, second, os), " "), ArgvOfAll(ProxyOptions(first, second, os)));
  }

  lemma BothFlagsMissing(first: string, second: string, os: seq<string>)
    requires IsWord(first) && IsWord(second)
    requires !Contains(Join(["mount"] + os, " "), first)
    requires !Contains(Join(["mount"] + os + [first + "=true"], " "), second)
    ensures var flags := [first + "=true", second + "=true"];
            && ProxyOptions(first, second, os) == ["mount"] + os + flags
            && ArgvOfAll(ProxyOptions(first, second, os)) == ["mount"] + ArgvOfAll(os) + flags
  {
    var flags := [first + "=true", second + "=true"];
    assert ProxyOptions(first, second, os) == ["mount"] + os + flags;
    FlagIsPlain(first);
    FlagIsPlain(second);
    ArgvOfWords(["mount"] + os, flags);
    ArgvOfMount(os);
  }

  lemma NewTag(t: Tag, s: string, ws: seq<string>)
    requires !Contains(s, t.flag)
    ensures TagWords(t, s, ws) == ws + [t.flag + "=" + t.prefix + t.version]
  {
    Assoc(t.FlagEq(), t.prefix, t.version);
  }

  lemma ArgvOfMount(os: seq<string>)
    ensures ArgvOfAll(["mount"] + os) == ["mount"] + ArgvOfAll(os)
  {
    assert (["mount"] + os)[1..] == os;
    assert "mount"[0] != "-o "[0];
    assert ArgvOf("mount") == ["mount"];
  }

  lemma FlagIsPlain(name: string)
    requires IsWord(name)
    ensures IsWord(name + "=true") && PlainSpaces(name + "=true")
  {
    SpaceFreeAppend(name, "=true");
  }

  lemma TaggedArgv(t: Tag, os: seq<string>)
    requires t.Valid() && SpaceFree(t.version)
    requires os != [] && forall o :: o in os ==> IsShaped(o) && PlainSpaces(o)
    ensures Argv(Tagged(t, Join(os, " "))) == TagWords(t, Join(os, " "), ArgvOfAll(os))
  {
    var s := Join(os, " ");
    var ws := ArgvOfAll(os);
    FieldsOfJoin(os);
    if !Contains(s, t.flag) {
      EntryIsWord(t);
      JoinSnoc(os, t.Entry());
      ArgvJoin(os + [t.Entry()]);
      ArgvOfWords(os, [t.Entry()]);
    } else if Contains(s, t.prefix) || FirstWith(ws, t.FlagEq()) == |ws| {
      ArgvJoin(os);
    } else {
      var tagged := TagWords(t, s, ws);
      TagWordsAreWords(t, s, ws);
      ArgvJoin(tagged);
      ArgvOfWords([], tagged);
      assert [] + tagged == tagged && ArgvOfAll([]) == [];
    }
  }
}
