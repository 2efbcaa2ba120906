/** The parts of Go's strings and regexp packages that the driver relies on.
    Strings are sequences of code points. */
module Text {

  /** unicode.IsSpace. */
  predicate IsSpace(c: char) {
    || c == ' ' || '\t' <= c <= '\r' || c == '\U{85}' || c == '\U{A0}' || c == '\U{1680}'
    || '\U{2000}' <= c <= '\U{200A}' || c == '\U{2028}' || c == '\U{2029}'
    || c == '\U{202F}' || c == '\U{205F}' || c == '\U{3000}'
  }

  /** The class \s of Go's regular expressions; it leaves out vertical tab and every non-ASCII space. */
  predicate IsRegexSpace(c: char) {
    c == ' ' || c == '\t' || c == '\n' || c == '\U{0C}' || c == '\r'
  }

  predicate SpaceFree(s: string) {
    forall i :: 0 <= i < |s| ==> !IsSpace(s[i])
  }

  predicate RegexSpaceFree(s: string) {
    forall i :: 0 <= i < |s| ==> !IsRegexSpace(s[i])
  }

  /** A nonempty string without white space: what strings.Fields can return. */
  predicate IsWord(s: string) {
    s != "" && SpaceFree(s)
  }

  lemma SpaceFreeAppend(a: string, b: string)
    requires SpaceFree(a) && SpaceFree(b)
    ensures SpaceFree(a + b)
  {
  }

  predicate HasPrefix(s: string, p: string) {
    p <= s
  }

  /** strings.ToLower on ASCII letters. */
  function LowerChar(c: char): char {
    if 'A' <= c <= 'Z' then c - 'A' + 'a' else c
  }

  function ToLower(s: string): (r: string)
    ensures |r| == |s|
    ensures forall i :: 0 <= i < |s| ==> r[i] == LowerChar(s[i])
  {
    seq(|s|, i requires 0 <= i < |s| => LowerChar(s[i]))
  }

  lemma Assoc<T>(a: seq<T>, b: seq<T>, c: seq<T>)
    ensures (a + b) + c == a + (b + c)
  {
  }

  // ---------------------------------------------------------------- searching

  predicate OccursAt(s: string, sub: string, i: int) {
    0 <= i && i + |sub| <= |s| && s[i..i + |sub|] == sub
  }

  lemma OccursInTail(s: string, sub: string, j: int)
    requires s != "" && j != 0
    ensures OccursAt(s, sub, j) <==> OccursAt(s[1..], sub, j - 1)
  {
    if 1 <= j && j + |sub| <= |s| {
      var a, b := s[j..j + |sub|], s[1..][j - 1..j - 1 + |sub|];
      forall k | 0 <= k < |a| ensures a[k] == b[k] {
        assert a[k] == s[j + k] && b[k] == s[1..][j - 1 + k];
      }
      assert a == b;
    }
  }

  /** strings.Index: the first occurrence, or -1. */
  function Index(s: string, sub: string): (r: int)
    ensures r == -1 || (OccursAt(s, sub, r) && forall j :: 0 <= j < r ==> !OccursAt(s, sub, j))
    ensures r == -1 ==> forall j :: !OccursAt(s, sub, j)
    decreases |s|
  {
    if |s| < |sub| then -1
    else if s[..|sub|] == sub then assert s[0..0 + |sub|] == sub; 0
    else if s == "" then -1
    else
      var r := Index(s[1..], sub);
      assert forall j: int {:trigger OccursAt(s, sub, j)} :: j != 0 ==> (OccursAt(s, sub, j) <==> OccursAt(s[1..], sub, j - 1)) by {
        forall j: int {:trigger OccursAt(s, sub, j)} | j != 0
          ensures OccursAt(s, sub, j) <==> OccursAt(s[1..], sub, j - 1)
        {
          OccursInTail(s, sub, j);
        }
      }
      assert !OccursAt(s, sub, 0);
      if r == -1 then -1 else r + 1
  }

  predicate Contains(s: string, sub: string) {
    Index(s, sub) != -1
  }

  lemma ContainsAt(s: string, sub: string, i: int)
    requires OccursAt(s, sub, i)
    ensures Contains(s, sub)
  {
  }

  /** Containment survives surrounding text. */
  lemma ContainsWithin(a: string, s: string, b: string, sub: string)
    requires Contains(s, sub)
    ensures Contains(a + s + b, sub)
  {
    var i := Index(s, sub);
    assert (a + s + b)[|a| + i..|a| + i + |sub|] == s[i..i + |sub|];
    ContainsAt(a + s + b, sub, |a| + i);
  }

  /** What contains a string contains each of its prefixes. */
  lemma ContainsPrefix(s: string, sub: string, p: string)
    requires Contains(s, sub) && p <= sub
    ensures Contains(s, p)
  {
    var i := Index(s, sub);
    assert s[i..i + |p|] == s[i..i + |sub|][..|p|] == sub[..|p|] == p;
    ContainsAt(s, p, i);
  }

  // ---------------------------------------------------------------- splitting and joining

  /** strings.Split for a nonempty separator. */
  function Split(s: string, sep: string): (parts: seq<string>)
    requires sep != ""
    ensures parts != []
    decreases |s|
  {
    var i := Index(s, sep);
    if i == -1 then [s] else [s[..i]] + Split(s[i + |sep|..], sep)
  }

  /** strings.Join. */
  function Join(parts: seq<string>, sep: string): string {
    if parts == [] then ""
    else if |parts| == 1 then parts[0]
    else parts[0] + sep + Join(parts[1..], sep)
  }

  lemma {:induction false} JoinSplit(s: string, sep: string)
    requires sep != ""
    ensures Join(Split(s, sep), sep) == s
    decreases |s|
  {
    var i := Index(s, sep);
    if i != -1 {
      var rest := s[i + |sep|..];
      JoinSplit(rest, sep);
      JoinCons(s[..i], Split(rest, sep), sep);
      CutOut(s, i, sep);
    }
  }

  lemma JoinCons(head: string, parts: seq<string>, sep: string)
    requires parts != []
    ensures Join([head] + parts, sep) == head + sep + Join(parts, sep)
  {
    assert ([head] + parts)[1..] == parts;
  }

  lemma CutOut(s: string, i: int, sep: string)
    requires OccursAt(s, sep, i)
    ensures s == s[..i] + sep + s[i + |sep|..]
  {
    assert s == s[..i] + s[i..i + |sep|] + s[i + |sep|..];
  }

  /** Splitting at a one-character separator cuts at the first separator. */
  lemma SplitHead(a: string, c: char, b: string)
    requires c !in a
    ensures Split(a + [c] + b, [c]) == [a] + Split(b, [c])
  {
    var s := a + [c] + b;
    assert s[|a|..|a| + 1] == [c];
    assert OccursAt(s, [c], |a|);
    forall j | 0 <= j < |a|
      ensures !OccursAt(s, [c], j)
    {
      assert s[j] == a[j];
      assert s[j..j + 1] == [a[j]];
    }
    assert Index(s, [c]) == |a|;
    assert s[..|a|] == a && s[|a| + 1..] == b;
  }

  lemma SplitTwo(a: string, b: string, c: char, rest: string)
    requires c !in a && c !in b
    ensures Split(a + [c] + (b + [c] + rest), [c]) == [a, b] + Split(rest, [c])
  {
    SplitHead(a, c, b + [c] + rest);
    SplitHead(b, c, rest);
    Assoc([a], [b], Split(rest, [c]));
  }

  /** The text after the third separator, whatever it holds, splits on its own. */
  lemma SplitThree(a: string, b: string, c: string, sep: char, rest: string)
    requires sep !in a && sep !in b && sep !in c
    ensures Split(a + [sep] + (b + [sep] + (c + [sep] + rest)), [sep]) == [a, b, c] + Split(rest, [sep])
  {
    SplitHead(a, sep, b + [sep] + (c + [sep] + rest));
    SplitTwo(b, c, sep, rest);
    Assoc([a], [b, c], Split(rest, [sep]));
  }

  lemma SplitNone(a: string, c: char)
    requires c !in a
    ensures Split(a, [c]) == [a]
  {
    forall j ensures !OccursAt(a, [c], j) {
      if 0 <= j < |a| {
        assert a[j..j + 1] == [a[j]];
      }
    }
  }

  /** Splitting distributes over a one-character separator. */
  lemma {:induction false} SplitAppend(a: string, c: char, b: string)
    ensures Split(a + [c] + b, [c]) == Split(a, [c]) + Split(b, [c])
    decreases |a|
  {
    var i := Index(a, [c]);
    if i == -1 {
      NotInWhenNoIndex(a, c);
      SplitHead(a, c, b);
    } else {
      var h, t := CutAt(a, c);
      SplitAppend(t, c, b);
      SplitHead(h, c, t);
      SplitHead(h, c, t + [c] + b);
      SurroundAssoc(h, c, t, c, b);
      Assoc([h], Split(t, [c]), Split(b, [c]));
    }
  }

  lemma SurroundAssoc(h: string, c: char, t: string, d: char, b: string)
    ensures (h + [c] + t) + [d] + b == h + [c] + (t + [d] + b)
  {
  }

  lemma NotInWhenNoIndex(a: string, c: char)
    requires Index(a, [c]) == -1
    ensures c !in a
  {
    forall j | 0 <= j < |a| ensures a[j] != c {
      assert !OccursAt(a, [c], j);
      assert a[j..j + 1] == [a[j]];
    }
  }

  /** The first occurrence of a character cuts the string in two. */
  lemma CutAt(a: string, c: char) returns (h: string, t: string)
    requires Index(a, [c]) != -1
    ensures h == a[..Index(a, [c])] && t == a[Index(a, [c]) + 1..]
    ensures a == h + [c] + t && c !in h
  {
    var i := Index(a, [c]);
    h, t := a[..i], a[i + 1..];
    assert a[i..i + 1] == [c];
    forall j | 0 <= j < i ensures a[j] != c {
      assert !OccursAt(a, [c], j);
      assert a[j..j + 1] == [a[j]];
    }
  }

  /** No piece of a split contains the (one-character) separator. */
  lemma {:induction false} SplitPiecesClean(s: string, c: char)
    ensures forall p :: p in Split(s, [c]) ==> c !in p
    decreases |s|
  {
    var i := Index(s, [c]);
    if i == -1 {
      NotInWhenNoIndex(s, c);
    } else {
      var h, t := CutAt(s, c);
      SplitPiecesClean(t, c);
    }
  }

  lemma {:induction false} SplitJoin(parts: seq<string>, c: char)
    requires parts != []
    requires forall p :: p in parts ==> c !in p
    ensures Split(Join(parts, [c]), [c]) == parts
  {
    if |parts| == 1 {
      SplitNone(parts[0], c);
    } else {
      SplitJoin(parts[1..], c);
      SplitHead(parts[0], c, Join(parts[1..], [c]));
      assert parts == [parts[0]] + parts[1..];
    }
  }

  // ---------------------------------------------------------------- trimming

  function TrimLeft(s: string): (r: string)
    ensures r == "" || !IsSpace(r[0])
  {
    if s != "" && IsSpace(s[0]) then TrimLeft(s[1..]) else s
  }

  function TrimRight(s: string): (r: string)
    ensures r == "" || !IsSpace(r[|r| - 1])
    ensures r <= s
  {
    if s != "" && IsSpace(s[|s| - 1]) then TrimRight(s[..|s| - 1]) else s
  }

  /** No white space at either end. */
  predicate IsTrimmed(s: string) {
    s == "" || (!IsSpace(s[0]) && !IsSpace(s[|s| - 1]))
  }

  /** strings.TrimSpace. */
  function TrimSpace(s: string): (r: string)
    ensures IsTrimmed(r)
  {
    TrimRight(TrimLeft(s))
  }

  lemma TrimSpaceFixed(s: string)
    requires IsTrimmed(s)
    ensures TrimSpace(s) == s
  {
  }

  /** Trimming removes only white space. */
  lemma {:induction false} TrimLeftParts(s: string) returns (gap: string)
    ensures s == gap + TrimLeft(s)
    ensures forall i :: 0 <= i < |gap| ==> IsSpace(gap[i])
  {
    if s != "" && IsSpace(s[0]) {
      var g := TrimLeftParts(s[1..]);
      gap := [s[0]] + g;
      Assoc([s[0]], g, TrimLeft(s[1..]));
      assert s == [s[0]] + s[1..];
    } else {
      gap := "";
    }
  }

  lemma {:induction false} TrimLeftGap(gap: string, s: string)
    requires forall i :: 0 <= i < |gap| ==> IsSpace(gap[i])
    requires s == "" || !IsSpace(s[0])
    ensures TrimLeft(gap + s) == s
  {
    if gap == "" {
      assert gap + s == s;
    } else {
      assert (gap + s)[1..] == gap[1..] + s;
      TrimLeftGap(gap[1..], s);
    }
  }

  lemma {:induction false} TrimRightGap(s: string, gap: string)
    requires forall i :: 0 <= i < |gap| ==> IsSpace(gap[i])
    requires s == "" || !IsSpace(s[|s| - 1])
    ensures TrimRight(s + gap) == s
  {
    if gap == "" {
      assert s + gap == s;
    } else {
      assert (s + gap)[..|s + gap| - 1] == s + gap[..|gap| - 1];
      TrimRightGap(s, gap[..|gap| - 1]);
    }
  }

  /** Trimming removes all the white space around a string, and nothing else. */
  lemma TrimSpaceGaps(before: string, s: string, after: string)
    requires s != "" && IsTrimmed(s)
    requires forall c :: c in before + after ==> IsSpace(c)
    ensures TrimSpace(before + s + after) == s
  {
    assert forall i :: 0 <= i < |before| ==> before[i] in before + after;
    assert forall i :: 0 <= i < |after| ==> after[i] in before + after;
    Assoc(before, s, after);
    TrimLeftGap(before, s + after);
    TrimRightGap(s, after);
  }

  // ---------------------------------------------------------------- fields

  /** Length of the leading run of characters that are not white space. */
  function WordLength(s: string): (n: nat)
    ensures n <= |s|
    ensures SpaceFree(s[..n])
    ensures n < |s| ==> IsSpace(s[n])
  {
    if s == "" || IsSpace(s[0]) then 0
    else
      var n := 1 + WordLength(s[1..]);
      assert s[..n] == [s[0]] + s[1..][..n - 1];
      n
  }

  /** strings.Fields. */
  function Fields(s: string): (ws: seq<string>)
    ensures forall w :: w in ws ==> IsWord(w)
    decreases |s|
  {
    if s == "" then []
    else if IsSpace(s[0]) then Fields(s[1..])
    else [s[..WordLength(s)]] + Fields(s[WordLength(s)..])
  }

  lemma {:induction false} WordLengthAppend(w: string, c: char, s: string)
    requires SpaceFree(w) && IsSpace(c)
    ensures WordLength(w + [c] + s) == |w|
  {
    if w == "" {
      assert w + [c] + s == [c] + s;
    } else {
      assert (w + [c] + s)[1..] == w[1..] + [c] + s;
      WordLengthAppend(w[1..], c, s);
    }
  }

  lemma FieldsHead(w: string, c: char, s: string)
    requires IsWord(w) && IsSpace(c)
    ensures Fields(w + [c] + s) == [w] + Fields(s)
  {
    var t := w + [c] + s;
    WordLengthAppend(w, c, s);
    assert t[0] == w[0];
    assert t[..|w|] == w && t[|w|..] == [c] + s;
    assert ([c] + s)[1..] == s;
  }

  lemma FieldsWord(w: string)
    requires IsWord(w)
    ensures Fields(w) == [w]
  {
    var n := WordLength(w);
    assert n == |w|;
    assert w[..n] == w && w[n..] == "";
  }

  /** Fields distribute over white space. */
  lemma {:induction false} FieldsAppend(a: string, c: char, b: string)
    requires IsSpace(c)
    ensures Fields(a + [c] + b) == Fields(a) + Fields(b)
    decreases |a|
  {
    if a == "" {
      assert a + [c] + b == [c] + b;
      assert ([c] + b)[1..] == b;
    } else if IsSpace(a[0]) {
      assert (a + [c] + b)[1..] == a[1..] + [c] + b;
      FieldsAppend(a[1..], c, b);
    } else {
      var n := WordLength(a);
      if n == |a| {
        assert a[..n] == a;
        FieldsWord(a);
        FieldsHead(a, c, b);
      } else {
        var w, d, rest := a[..n], a[n], a[n + 1..];
        assert a == w + [d] + rest;
        FieldsHead(w, d, rest);
        FieldsHead(w, d, rest + [c] + b);
        SurroundAssoc(w, d, rest, c, b);
        FieldsAppend(rest, c, b);
        Assoc([w], Fields(rest), Fields(b));
      }
    }
  }

  lemma {:induction false} FieldsJoin(ws: seq<string>)
    requires forall w :: w in ws ==> IsWord(w)
    ensures Fields(Join(ws, " ")) == ws
  {
    if |ws| == 1 {
      FieldsWord(ws[0]);
    } else if |ws| > 1 {
      FieldsJoin(ws[1..]);
      FieldsHead(ws[0], ' ', Join(ws[1..], " "));
      assert ws == [ws[0]] + ws[1..];
    }
  }

  /** Every field is a piece of the string it came from. */
  lemma OccursAfter(s: string, n: nat, sub: string, i: nat)
    requires n <= |s| && OccursAt(s[n..], sub, i)
    ensures OccursAt(s, sub, i + n)
  {
    var a, b := s[n..][i..i + |sub|], s[i + n..i + n + |sub|];
    assert |a| == |b| && forall k :: 0 <= k < |a| ==> a[k] == b[k];
  }

  lemma {:induction false} FieldWithin(s: string, k: nat) returns (i: nat)
    requires k < |Fields(s)|
    ensures OccursAt(s, Fields(s)[k], i)
    decreases |s|
  {
    if IsSpace(s[0]) {
      i := FieldWithin(s[1..], k);
      OccursAfter(s, 1, Fields(s)[k], i);
      i := i + 1;
    } else {
      var n := WordLength(s);
      if k == 0 {
        i := 0;
        assert s[0..n] == s[..n];
      } else {
        i := FieldWithin(s[n..], k - 1);
        OccursAfter(s, n, Fields(s)[k], i);
        i := i + n;
      }
    }
  }

  // ---------------------------------------------------------------- collapsing white space

  /** regexp `\s+` replaced by one space (TrimDuplicatedSpace). */
  function CollapseSpaces(s: string): string {
    if s == "" then ""
    else if !IsRegexSpace(s[0]) then [s[0]] + CollapseSpaces(s[1..])
    else if |s| > 1 && IsRegexSpace(s[1]) then CollapseSpaces(s[1..])
    else " " + CollapseSpaces(s[1..])
  }

  lemma {:induction false} CollapseWord(w: string)
    requires RegexSpaceFree(w)
    ensures CollapseSpaces(w) == w
  {
    if w != "" {
      CollapseWord(w[1..]);
    }
  }

  /** A nonempty run of regex spaces between two texts that do not touch it collapses to one space. */
  lemma {:induction false} CollapseGap(a: string, gap: string, b: string)
    requires gap != "" && forall i :: 0 <= i < |gap| ==> IsRegexSpace(gap[i])
    requires a == "" || !IsRegexSpace(a[|a| - 1])
    requires b == "" || !IsRegexSpace(b[0])
    ensures CollapseSpaces(a + gap + b) == CollapseSpaces(a) + " " + CollapseSpaces(b)
    decreases |a|
  {
    if a == "" {
      assert a + gap + b == gap + b;
      CollapseLeadingGap(gap, b);
    } else {
      var x, rest := a[0], a[1..];
      assert a == [x] + rest && a + gap + b == [x] + (rest + gap + b);
      assert IsRegexSpace(x) ==> rest != "" && (rest + gap + b)[0] == rest[0];
      CollapseCons(x, rest);
      CollapseCons(x, rest + gap + b);
      assert rest != "" ==> rest[|rest| - 1] == a[|a| - 1];
      CollapseGap(rest, gap, b);
      SurroundCollapsed(Lead(x, rest), CollapseSpaces(rest), CollapseSpaces(b));
    }
  }

  /** What the first character leaves, in front of the rest. */
  function Lead(x: char, rest: string): string {
    if !IsRegexSpace(x) then [x] else if rest != "" && IsRegexSpace(rest[0]) then "" else " "
  }

  lemma CollapseCons(x: char, rest: string)
    ensures CollapseSpaces([x] + rest) == Lead(x, rest) + CollapseSpaces(rest)
  {
    assert ([x] + rest)[1..] == rest;
  }

  lemma SurroundCollapsed(lead: string, a: string, b: string)
    ensures lead + (a + " " + b) == lead + a + " " + b
  {
  }

  lemma {:induction false} CollapseLeadingGap(gap: string, b: string)
    requires gap != "" && forall i :: 0 <= i < |gap| ==> IsRegexSpace(gap[i])
    requires b == "" || !IsRegexSpace(b[0])
    ensures CollapseSpaces(gap + b) == " " + CollapseSpaces(b)
  {
    var x, rest := gap[0], gap[1..];
    assert gap == [x] + rest && gap + b == [x] + (rest + b);
    CollapseCons(x, rest + b);
    if rest == "" {
      assert rest + b == b;
    } else {
      assert (rest + b)[0] == rest[0];
      CollapseLeadingGap(rest, b);
    }
  }
}
