/** The mount options of inline volumes: cutting the user's string into tokens, and checking each token. */
module MountOptions {
  import opened Text
  import opened Wrappers

  // ---------------------------------------------------------------- tokens

  /** The trimmed, nonempty pieces. */
  function Pieces(parts: seq<string>): (ps: seq<string>)
  {
    if parts == [] then []
    else
      var last := TrimSpace(parts[|parts| - 1]);
      Pieces(parts[..|parts| - 1]) + if last != "" then [last] else []
  }

  /** White space is welcome only once, right after "-o". */
  predicate IsBad(piece: string) {
    if HasPrefix(piece, "-o ") then !SpaceFree(piece[3..]) else !SpaceFree(piece)
  }

  function FirstBad(ps: seq<string>): (n: nat)
    ensures n <= |ps|
    ensures forall i :: 0 <= i < n ==> !IsBad(ps[i])
    ensures n < |ps| ==> IsBad(ps[n])
  {
    if ps == [] || IsBad(ps[0]) then 0 else 1 + FirstBad(ps[1..])
  }

  /** "-o" takes the field after it along. */
  function PairUp(fields: seq<string>): seq<string> {
    if fields == [] then []
    else if fields[0] == "-o" && |fields| > 1 then ["-o " + fields[1]] + PairUp(fields[2..])
    else [fields[0]] + PairUp(fields[1..])
  }

  /** What the tokenizer must return. The first bad piece is returned alone. */
  function Tokens(s: string): seq<string> {
    var t := TrimSpace(s);
    if Contains(t, ",") then
      var ps := Pieces(Split(t, ","));
      if FirstBad(ps) < |ps| then [ps[FirstBad(ps)]] else ps
    else PairUp(Fields(t))
  }

  /** tokenizeMountOptionsString. */
  method Tokenize(s: string) returns (tokens: seq<string>)
    ensures tokens == Tokens(s)
  {
    var t := TrimSpace(s);
    if t == "" {
      assert !OccursAt(t, ",", 0);
      return [];
    }
    if Contains(t, ",") {
      tokens := TokenizeCommas(Split(t, ","));
    } else {
      tokens := TokenizeFields(Fields(t));
    }
  }

  method TokenizeCommas(parts: seq<string>) returns (tokens: seq<string>)
    ensures var ps := Pieces(parts); tokens == if FirstBad(ps) < |ps| then [ps[FirstBad(ps)]] else ps
  {
    tokens := [];
    var i := 0;
    while i < |parts|
      invariant 0 <= i <= |parts|
      invariant tokens == Pieces(parts[..i])
      invariant FirstBad(tokens) == |tokens|
    {
      var t := TrimSpace(parts[i]);
      PiecesStep(parts, i);
      if t != "" {
        FirstBadAppend(tokens, t);
        if IsBad(t) {
          PiecesExtend(parts, i + 1);
          return [t];
        }
        tokens := tokens + [t];
      }
      i := i + 1;
    }
    assert parts[..i] == parts;
  }

  lemma PiecesStep(parts: seq<string>, i: nat)
    requires i < |parts|
    ensures var t := TrimSpace(parts[i]);
            Pieces(parts[..i + 1]) == Pieces(parts[..i]) + if t != "" then [t] else []
  {
    assert parts[..i + 1][..i] == parts[..i];
  }

  lemma FirstBadAppend(ps: seq<string>, t: string)
    requires FirstBad(ps) == |ps|
    ensures FirstBad(ps + [t]) == if IsBad(t) then |ps| else |ps| + 1
  {
    var qs := ps + [t];
    assert forall i :: 0 <= i < |ps| ==> qs[i] == ps[i] && !IsBad(ps[i]);
    assert qs[|ps|] == t;
  }

  /** A bad piece among the first parts stays the first bad piece. */
  lemma {:induction false} PiecesExtend(parts: seq<string>, n: nat)
    requires n <= |parts|
    ensures Pieces(parts[..n]) <= Pieces(parts)
    ensures FirstBad(Pieces(parts[..n])) < |Pieces(parts[..n])| ==>
              FirstBad(Pieces(parts)) == FirstBad(Pieces(parts[..n]))
    decreases |parts|
  {
    if n == |parts| {
      assert parts[..n] == parts;
    } else {
      var shorter := parts[..|parts| - 1];
      assert shorter[..n] == parts[..n];
      PiecesExtend(shorter, n);
      FirstBadPrefix(Pieces(parts[..n]), Pieces(parts));
    }
  }

  lemma FirstBadPrefix(ps: seq<string>, qs: seq<string>)
    requires ps <= qs
    ensures FirstBad(ps) < |ps| ==> FirstBad(qs) == FirstBad(ps)
  {
    assert forall i :: 0 <= i < |ps| ==> qs[i] == ps[i];
  }

  method TokenizeFields(fields: seq<string>) returns (tokens: seq<string>)
    ensures tokens == PairUp(fields)
  {
    tokens := [];
    var i := 0;
    while i < |fields|
      invariant 0 <= i <= |fields|
      invariant tokens + PairUp(fields[i..]) == PairUp(fields)
    {
      var rest := fields[i..];
      if fields[i] == "-o" && i + 1 < |fields| {
        assert rest[1] == fields[i + 1] && rest[2..] == fields[i + 2..];
        Assoc(tokens, ["-o " + fields[i + 1]], PairUp(fields[i + 2..]));
        tokens := tokens + ["-o " + fields[i + 1]];
        i := i + 2;
      } else {
        assert rest[1..] == fields[i + 1..];
        Assoc(tokens, [fields[i]], PairUp(fields[i + 1..]));
        tokens := tokens + [fields[i]];
        i := i + 1;
      }
    }
    assert fields[i..] == [];
  }

  // ---------------------------------------------------------------- checking a token

  /** A set of flag names. */
  type FlagSet = fs: set<string> | forall f :: f in fs ==> IsWord(f)

  const MAX_PARALLELISM := 128

  /** strings.Cut at the first "=". */
  function FlagName(token: string): (name: string)
    ensures name <= token
  {
    if Index(token, "=") == -1 then token else token[..Index(token, "=")]
  }

  predicate HasValue(token: string) {
    Contains(token, "=")
  }

  function FlagValue(token: string): string {
    if Index(token, "=") == -1 then "" else token[Index(token, "=") + 1..]
  }

  predicate IsDigits(s: string) {
    s != "" && forall i :: 0 <= i < |s| ==> '0' <= s[i] <= '9'
  }

  function Number(s: string): nat
    requires forall i :: 0 <= i < |s| ==> '0' <= s[i] <= '9'
  {
    if s == "" then 0 else 10 * Number(s[..|s| - 1]) + (s[|s| - 1] - '0') as nat
  }

  predicate IsAlnum(c: char) {
    'a' <= c <= 'z' || 'A' <= c <= 'Z' || '0' <= c <= '9'
  }

  /** subdirectoryRegex and filterRegex. */
  predicate MatchesClass(s: string, extra: string) {
    s != "" && forall i :: 0 <= i < |s| ==> IsAlnum(s[i]) || s[i] in extra
  }

  predicate ValueFits(flag: string, value: string) {
    if flag == "--block-cache-parallelism" || flag == "--distributed-cache-parallelism" then
      IsDigits(value) && 1 <= Number(value) <= MAX_PARALLELISM
    else if flag == "--log-level" then
      value in {"LOG_OFF", "LOG_CRIT", "LOG_ERR", "LOG_WARNING", "LOG_INFO", "LOG_TRACE", "LOG_DEBUG"}
    else if flag == "--log-type" then value in {"silent", "syslog", "base"}
    else if flag == "--subdirectory" then MatchesClass(value, "._/-")
    else if flag == "--filter" then MatchesClass(value, "._/*?-")
    else true
  }

  /** The checks on a flag, with or without a value. */
  predicate AcceptsFlag(allowed: FlagSet, token: string) {
    var flag, value := FlagName(token), FlagValue(token);
    && flag != "--preload"
    && flag in allowed
    && (flag == "--block-cache-parallelism" ==> HasValue(token))
    && (flag == "--distributed-cache-parallelism" ==> HasValue(token) && value != "")
    && (HasValue(token) ==> SpaceFree(value) && ValueFits(flag, value))
  }

  /** The checks on a FUSE option: one word that does not look like a flag. */
  predicate AcceptsFuse(token: string)
    requires HasPrefix(token, "-o ")
  {
    var rest := TrimSpace(token[3..]);
    SpaceFree(rest) && !HasPrefix(rest, "-")
  }

  predicate Accepts(allowed: FlagSet, token: string) {
    token != "-o" && if HasPrefix(token, "-o ") then AcceptsFuse(token) else AcceptsFlag(allowed, token)
  }

  predicate AllAccepted(allowed: FlagSet, ps: seq<string>) {
    forall p :: p in ps ==> Accepts(allowed, p)
  }

  /** SanitizeMountOptions, for any allowlist: all tokens, trimmed, or an error that names the first that is refused. */
  method Sanitize(allowed: FlagSet, options: seq<string>) returns (r: Result<seq<string>>)
    ensures r.Ok? <==> AllAccepted(allowed, Pieces(options))
    ensures r.Ok? ==> r.value == Pieces(options)
    ensures r.Err? ==>
              && !Accepts(allowed, r.message)
              && exists i :: 0 <= i < |Pieces(options)| && r.message == Pieces(options)[i]
                             && AllAccepted(allowed, Pieces(options)[..i])
  {
    var sanitized: seq<string> := [];
    var n := 0;
    while n < |options|
      invariant 0 <= n <= |options|
      invariant sanitized == Pieces(options[..n])
      invariant AllAccepted(allowed, sanitized)
    {
      var trimmed := TrimSpace(options[n]);
      PiecesStep(options, n);
      if trimmed != "" {
        if !Accepts(allowed, trimmed) {
          FirstRefusal(allowed, options, n);
          return Err(trimmed);
        }
        sanitized := sanitized + [trimmed];
      }
      n := n + 1;
    }
    assert options[..n] == options;
    return Ok(sanitized);
  }

  lemma FirstRefusal(allowed: FlagSet, options: seq<string>, n: nat)
    requires n < |options| && AllAccepted(allowed, Pieces(options[..n]))
    requires TrimSpace(options[n]) != "" && !Accepts(allowed, TrimSpace(options[n]))
    ensures !AllAccepted(allowed, Pieces(options))
    ensures exists i :: 0 <= i < |Pieces(options)| && TrimSpace(options[n]) == Pieces(options)[i]
                        && AllAccepted(allowed, Pieces(options)[..i])
  {
    PiecesStep(options, n);
    PiecesExtend(options, n + 1);
    SplitPrefix(Pieces(options[..n]), TrimSpace(options[n]), Pieces(options));
  }

  lemma SplitPrefix<T>(before: seq<T>, x: T, all: seq<T>)
    requires before + [x] <= all
    ensures x in all && |before| < |all| && all[|before|] == x && all[..|before|] == before
  {
    assert (before + [x])[|before|] == x;
  }
}
