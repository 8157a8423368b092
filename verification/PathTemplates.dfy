/** Filling the placeholders of a path pattern one after the other, and when that is filling them all at once. */
module PathTemplates {
  import opened Encodings
  import opened Sequences

  /** May stand inside the braces of a placeholder. */
  predicate IsNameChar(c: char) {
    c !in "/?#{}"
  }

  predicate IsName(s: string) {
    s != "" && forall i | 0 <= i < |s| :: IsNameChar(s[i])
  }

  /** The length of the longest run of name characters from position i on. */
  function NameRun(p: string, i: nat): (n: nat)
    requires i <= |p|
    ensures i + n <= |p| && (forall j | i <= j < i + n :: IsNameChar(p[j]))
    ensures i + n < |p| ==> !IsNameChar(p[i + n])
    decreases |p| - i
  {
    if i < |p| && IsNameChar(p[i]) then 1 + NameRun(p, i + 1) else 0
  }

  /** The pattern starts with a placeholder. */
  predicate StartsWithPlaceholder(p: string) {
    p != "" && p[0] == '{' && var n := NameRun(p, 1); n > 0 && 1 + n < |p| && p[1 + n] == '}'
  }

  function FirstName(p: string): (name: string)
    requires StartsWithPlaceholder(p)
    ensures IsName(name) && "{" + name + "}" <= p && |name| + 2 <= |p|
  {
    p[1..1 + NameRun(p, 1)]
  }

  datatype Token = Literal(c: char) | Placeholder(name: string)

  /** Leftmost matches of placeholders, from left to right, and the characters in between. */
  function Tokens(p: string): (ts: seq<Token>)
    ensures forall t | t in ts && t.Placeholder? :: IsName(t.name)
  {
    if p == "" then []
    else if StartsWithPlaceholder(p) then [Placeholder(FirstName(p))] + Tokens(p[|FirstName(p)| + 2..])
    else [Literal(p[0])] + Tokens(p[1..])
  }

  /** The text of a parameter; a missing one is turned into the text of undefined. */
  function Parameter(parameters: map<string, string>, name: string): string {
    if name in parameters then parameters[name] else "undefined"
  }

  function Encoded(parameters: map<string, string>, name: string): string {
    EncodeURIComponent(Parameter(parameters, name))
  }

  predicate OccursAt(s: string, t: string, i: nat) {
    i + |t| <= |s| && s[i..i + |t|] == t
  }

  /** The first occurrence from position i on. */
  function IndexOf(s: string, t: string, i: nat := 0): (r: int)
    requires i <= |s|
    ensures r == -1 || (i <= r && OccursAt(s, t, r))
    ensures forall k | i <= k && (r == -1 || k < r) :: !OccursAt(s, t, k)
    decreases |s| - i
  {
    if OccursAt(s, t, i) then i
    else if i < |s| then IndexOf(s, t, i + 1)
    else -1
  }

  /** The text with the first occurrence replaced, if there is one. */
  function ReplaceFirst(s: string, t: string, r: string): string {
    var i := IndexOf(s, t);
    if i == -1 then s else s[..i] + r + s[i + |t|..]
  }

  /** A placeholder replaced at its first occurrence in the path; literal text replaces nothing. */
  function ReplaceToken(path: string, token: Token, parameters: map<string, string>): string {
    match token
    case Literal(_) => path
    case Placeholder(name) => ReplaceFirst(path, "{" + name + "}", Encoded(parameters, name))
  }

  /** The placeholders replaced one after the other, in the path so far. */
  function ReplaceAll(path: string, tokens: seq<Token>, parameters: map<string, string>): string
    decreases tokens
  {
    if tokens == [] then path else ReplaceAll(ReplaceToken(path, tokens[0], parameters), tokens[1..], parameters)
  }

  function GetPath(pattern: string, parameters: map<string, string>): string {
    ReplaceAll(pattern, Tokens(pattern), parameters)
  }

  function TokenText(token: Token, parameters: map<string, string>): string {
    match token
    case Literal(c) => [c]
    case Placeholder(name) => Encoded(parameters, name)
  }

  /** All placeholders replaced at once. */
  function Substituted(tokens: seq<Token>, parameters: map<string, string>): string {
    if tokens == [] then "" else TokenText(tokens[0], parameters) + Substituted(tokens[1..], parameters)
  }

  // ---- When one after the other is all at once ----

  function TokenSource(token: Token): string {
    match token
    case Literal(c) => [c]
    case Placeholder(name) => "{" + name + "}"
  }

  /** The text that the tokens were found in. */
  function Source(tokens: seq<Token>): string {
    if tokens == [] then "" else TokenSource(tokens[0]) + Source(tokens[1..])
  }

  ghost predicate Occurs(s: string, t: string) {
    exists i: nat :: OccursAt(s, t, i)
  }

  /** No placeholder occurs in the text that is there before it when it is filled. */
  ghost predicate Clear(done: string, tokens: seq<Token>, parameters: map<string, string>)
    decreases tokens
  {
    if tokens == [] then true
    else
      && (tokens[0].Placeholder? ==> !Occurs(done, TokenSource(tokens[0])))
      && Clear(done + TokenText(tokens[0], parameters), tokens[1..], parameters)
  }

  ghost predicate AreNamed(tokens: seq<Token>) {
    forall t | t in tokens && t.Placeholder? :: IsName(t.name)
  }

  ghost predicate NoneEmpty(tokens: seq<Token>, parameters: map<string, string>) {
    forall t | t in tokens && t.Placeholder? :: Encoded(parameters, t.name) != ""
  }

  lemma {:induction false} SourceOfTokens(p: string)
    ensures Source(Tokens(p)) == p
    decreases |p|
  {
    if p != "" {
      var first := FirstToken(p);
      SourceOfTokens(p[|TokenSource(first)|..]);
      TokensFromFirst(p);
      assert ([first] + Tokens(p[|TokenSource(first)|..]))[1..] == Tokens(p[|TokenSource(first)|..]);
    }
  }

  function FirstToken(p: string): Token
    requires p != ""
  {
    if StartsWithPlaceholder(p) then Placeholder(FirstName(p)) else Literal(p[0])
  }

  lemma TokensFromFirst(p: string)
    requires p != ""
    ensures var n := |TokenSource(FirstToken(p))|;
            n <= |p| && Tokens(p) == [FirstToken(p)] + Tokens(p[n..]) && p == TokenSource(FirstToken(p)) + p[n..]
  {
  }

  /** What may be replaced: braces around some characters, none of them a slash, question mark, hash sign or brace. */
  predicate IsPlaceholderAt(p: string, i: nat, name: string) {
    && i + |name| + 2 <= |p| && p[i] == '{' && p[i + 1 + |name|] == '}'
    && name != "" && forall k | 0 <= k < |name| ::
         && p[i + 1 + k] == name[k]
         && name[k] != '/' && name[k] != '?' && name[k] != '#' && name[k] != '{' && name[k] != '}'
  }

  /** The placeholders among the tokens are all there are in the pattern, each where it stands. */
  lemma PlaceholdersExactly(p: string, i: nat, name: string)
    ensures IsPlaceholderAt(p, i, name) <==>
            exists j | 0 <= j < |Tokens(p)| :: Tokens(p)[j] == Placeholder(name) && Position(Tokens(p), j) == i
  {
    if IsPlaceholderAt(p, i, name) {
      var j := PlaceholderFound(p, Tokens(p), i, name);
    }
    if j :| 0 <= j < |Tokens(p)| && Tokens(p)[j] == Placeholder(name) && Position(Tokens(p), j) == i {
      SourceOfTokens(p);
      PlaceholderStands(Tokens(p), j, i, name);
    }
  }

  function TokenLength(token: Token): nat {
    match token
    case Literal(_) => 1
    case Placeholder(name) => |name| + 2
  }

  /** Where a token stands in the text that the tokens were found in. */
  function Position(tokens: seq<Token>, j: nat): nat
    requires j <= |tokens|
  {
    if j == 0 then 0 else TokenLength(tokens[0]) + Position(tokens[1..], j - 1)
  }

  lemma TokensStep(p: string)
    requires p != ""
    ensures var first := FirstToken(p);
            var n := TokenLength(first);
            0 < n <= |p| && Tokens(p) != [] && Tokens(p)[0] == first && Tokens(p)[1..] == Tokens(p[n..])
  {
    TokensFromFirst(p);
  }

  lemma {:induction false} PlaceholderFound(p: string, tokens: seq<Token>, i: nat, name: string) returns (j: nat)
    requires tokens == Tokens(p) && IsPlaceholderAt(p, i, name)
    ensures j < |tokens| && tokens[j] == Placeholder(name) && Position(tokens, j) == i
    decreases |p|
  {
    if i == 0 {
      j := 0;
      FirstIsPlaceholder(p, name);
    } else {
      var n := TokenLength(FirstToken(p));
      TokensStep(p);
      FoundInRest(p, i, name);
      var k := PlaceholderFound(p[n..], tokens[1..], i - n, name);
      j := k + 1;
    }
  }

  lemma FirstIsPlaceholder(p: string, name: string)
    requires IsPlaceholderAt(p, 0, name)
    ensures Tokens(p) != [] && Tokens(p)[0] == Placeholder(name)
  {
    forall k | 1 <= k < 1 + |name| ensures IsNameChar(p[k]) { assert p[k] == name[k - 1]; }
    var n := NameRun(p, 1);
    assert n == |name|;
    assert StartsWithPlaceholder(p) && FirstName(p) == name;
  }

  lemma NotInsideFirst(p: string, i: nat, name: string)
    requires IsPlaceholderAt(p, i, name) && i > 0
    ensures TokenLength(FirstToken(p)) <= i
  {
    if StartsWithPlaceholder(p) {
      var first := FirstName(p);
      forall k | 1 <= k < |first| + 2 ensures p[k] != '{' { assert k <= |first| ==> p[k] == first[k - 1]; }
    }
  }

  lemma FoundInRest(p: string, i: nat, name: string)
    requires IsPlaceholderAt(p, i, name) && i > 0
    ensures var n := TokenLength(FirstToken(p)); n <= i && n <= |p| && IsPlaceholderAt(p[n..], i - n, name)
  {
    NotInsideFirst(p, i, name);
    PlaceholderShifts(p, TokenLength(FirstToken(p)), i, name);
  }

  lemma PlaceholderShifts(p: string, n: nat, i: nat, name: string)
    requires n <= |p| && n <= i
    ensures IsPlaceholderAt(p[n..], i - n, name) <==> IsPlaceholderAt(p, i, name)
  {
    forall k | 0 <= k < |p| - n ensures p[n..][k] == p[n + k] {}
  }

  lemma {:induction false} PlaceholderStands(tokens: seq<Token>, j: nat, i: nat, name: string)
    requires j < |tokens| && tokens[j] == Placeholder(name) && IsName(name) && Position(tokens, j) == i
    ensures IsPlaceholderAt(Source(tokens), i, name)
    decreases |tokens|
  {
    if j == 0 {
      StandsFirst(Source(tokens[1..]), name);
    } else {
      var n := TokenLength(tokens[0]);
      PlaceholderStands(tokens[1..], j - 1, i - n, name);
      assert Source(tokens)[n..] == Source(tokens[1..]);
      PlaceholderShifts(Source(tokens), n, i, name);
    }
  }

  lemma StandsFirst(rest: string, name: string)
    requires IsName(name)
    ensures IsPlaceholderAt("{" + name + "}" + rest, 0, name)
  {
    forall k | 0 <= k < |name| ensures IsNameChar(name[k]) {}
  }

  lemma Mismatch(u: string, t: string, i: nat, m: nat)
    requires m < |t| && i + m < |u| && u[i + m] != t[m]
    ensures !OccursAt(u, t, i)
  {
    if i + |t| <= |u| { assert u[i..i + |t|][m] == u[i + m]; }
  }

  /** A placeholder cannot start before its own opening brace and reach over it. */
  lemma NotAcross(done: string, name: string, rest: string, i: nat)
    requires IsName(name) && i < |done| && !OccursAt(done, "{" + name + "}", i)
    ensures !OccursAt(done + ("{" + name + "}" + rest), "{" + name + "}", i)
  {
    var t := "{" + name + "}";
    var u := done + (t + rest);
    if i + |t| <= |done| {
      assert u[i..i + |t|] == done[i..i + |t|];
    } else {
      var m := |done| - i;
      assert u[|done|] == '{' && (m <= |name| ==> t[m] == name[m - 1]);
      Mismatch(u, t, i, m);
    }
  }

  /** Where it does not occur in the text before, a placeholder is found where it stands. */
  lemma FoundInPlace(done: string, name: string, rest: string, value: string)
    requires IsName(name) && !Occurs(done, "{" + name + "}")
    ensures ReplaceFirst(done + ("{" + name + "}" + rest), "{" + name + "}", value) == done + value + rest
  {
    var t := "{" + name + "}";
    var u := done + (t + rest);
    forall i | 0 <= i < |done| ensures !OccursAt(u, t, i) { NotAcross(done, name, rest, i); }
    assert u[|done|..|done| + |t|] == t && OccursAt(u, t, |done|);
    assert u[..|done|] == done && u[|done| + |t|..] == rest;
  }

  /** Where it does, it is filled there: what was an opening brace is no longer one. */
  lemma FoundBefore(done: string, name: string, rest: string, value: string) returns (r: nat)
    requires IsName(name) && Occurs(done, "{" + name + "}") && value != ""
    ensures r < |done| && done[r] == '{'
    ensures var path := ReplaceFirst(done + ("{" + name + "}" + rest), "{" + name + "}", value);
            r < |path| && path[..r] == done[..r] && path[r] == value[0]
  {
    var t := "{" + name + "}";
    var u := done + (t + rest);
    var i: nat :| OccursAt(done, t, i);
    assert u[i..i + |t|] == done[i..i + |t|] && OccursAt(u, t, i);
    r := IndexOf(u, t);
    assert r <= i && u[r] == u[r..r + |t|][0] && u[r] == done[r];
  }

  /** Clear tokens are filled in place, and the others after them are left to be filled. */
  lemma {:induction false} ClearRun(done: string, tokens: seq<Token>, more: seq<Token>, parameters: map<string, string>)
    requires AreNamed(tokens) && Clear(done, tokens, parameters)
    ensures ReplaceAll(done + Source(tokens + more), tokens + more, parameters)
         == ReplaceAll(done + Substituted(tokens, parameters) + Source(more), more, parameters)
    decreases tokens
  {
    if tokens == [] {
      assert tokens + more == more && done + "" == done;
    } else {
      var token, rest := tokens[0], tokens[1..];
      var done' := done + TokenText(token, parameters);
      assert (tokens + more)[1..] == rest + more;
      TokenFilled(done, token, Source(rest + more), parameters);
      ClearRun(done', rest, more, parameters);
      Assoc(done, TokenText(token, parameters), Substituted(rest, parameters));
    }
  }

  lemma TokenFilled(done: string, token: Token, rest: string, parameters: map<string, string>)
    requires token.Placeholder? ==> IsName(token.name) && !Occurs(done, TokenSource(token))
    ensures ReplaceToken(done + (TokenSource(token) + rest), token, parameters) ==
            done + TokenText(token, parameters) + rest
  {
    match token
    case Literal(c) => Assoc(done, [c], rest);
    case Placeholder(name) => FoundInPlace(done, name, rest, Encoded(parameters, name));
  }

  /** The path has something else where the other text has an opening brace. */
  predicate WrongAt(path: string, other: string, q: nat) {
    q < |path| && q < |other| && path[..q] == other[..q] && other[q] == '{' && path[q] != '{'
  }

  /** Whatever is filled later, it cannot become right again. */
  lemma {:induction false} WrongStays(path: string, other: string, q: nat, tokens: seq<Token>,
                                      parameters: map<string, string>)
    requires WrongAt(path, other, q) && AreNamed(tokens) && NoneEmpty(tokens, parameters)
    ensures ReplaceAll(path, tokens, parameters) != other
    decreases tokens
  {
    if tokens != [] {
      var q' := q;
      if tokens[0].Placeholder? {
        q' := StillWrong(path, other, q, TokenSource(tokens[0]), Encoded(parameters, tokens[0].name));
      }
      WrongStays(ReplaceToken(path, tokens[0], parameters), other, q', tokens[1..], parameters);
    }
  }

  lemma StillWrong(path: string, other: string, q: nat, t: string, value: string) returns (q': nat)
    requires WrongAt(path, other, q) && t != "" && t[0] == '{' && value != "" && value[0] != '{'
    ensures WrongAt(ReplaceFirst(path, t, value), other, q')
  {
    var r := IndexOf(path, t);
    q' := q;
    if r != -1 {
      assert path[r] == path[r..r + |t|][0] == '{';
      var path' := ReplaceFirst(path, t, value);
      if r < q {
        q' := r;
        assert path'[..r] == path[..q][..r] && path'[r] == value[0] && other[r] == other[..q][r];
      } else {
        assert path'[..q] == path[..q] && path'[q] == path[q];
      }
    }
  }

  /** Tokens that are not clear are filled wrongly, unless something is filled with nothing. */
  lemma {:induction false} UnclearDiffers(done: string, tokens: seq<Token>, parameters: map<string, string>)
    requires AreNamed(tokens) && NoneEmpty(tokens, parameters) && !Clear(done, tokens, parameters)
    ensures ReplaceAll(done + Source(tokens), tokens, parameters) != done + Substituted(tokens, parameters)
    decreases tokens
  {
    var token, rest := tokens[0], tokens[1..];
    if token.Placeholder? && Occurs(done, TokenSource(token)) {
      FilledBefore(done, token.name, rest, parameters);
    } else {
      TokenFilled(done, token, Source(rest), parameters);
      UnclearDiffers(done + TokenText(token, parameters), rest, parameters);
      Assoc(done, TokenText(token, parameters), Substituted(rest, parameters));
    }
  }

  lemma FilledBefore(done: string, name: string, rest: seq<Token>, parameters: map<string, string>)
    requires IsName(name) && Occurs(done, "{" + name + "}") && Encoded(parameters, name) != ""
    requires AreNamed(rest) && NoneEmpty(rest, parameters)
    ensures var value := Encoded(parameters, name);
            var after := ReplaceFirst(done + ("{" + name + "}" + Source(rest)), "{" + name + "}", value);
            ReplaceAll(after, rest, parameters) != done + (value + Substituted(rest, parameters))
  {
    var value := Encoded(parameters, name);
    var path := ReplaceFirst(done + ("{" + name + "}" + Source(rest)), "{" + name + "}", value);
    var other := done + (value + Substituted(rest, parameters));
    var r := FoundBefore(done, name, Source(rest), value);
    NoBraceAtStart(parameters, name);
    assert other[..r] == done[..r] && other[r] == done[r];
    WrongStays(path, other, r, rest, parameters);
  }

  lemma NoBraceAtStart(parameters: map<string, string>, name: string)
    requires Encoded(parameters, name) != ""
    ensures Encoded(parameters, name)[0] != '{'
  {
    EncodedHasNoDelimiters(Parameter(parameters, name));
    assert Encoded(parameters, name)[0] in Encoded(parameters, name);
  }

  /** Filling one after the other is filling all at once if no placeholder occurs in what is there before it. */
  lemma ClearPathIsSubstitution(pattern: string, parameters: map<string, string>)
    requires Clear("", Tokens(pattern), parameters)
    ensures GetPath(pattern, parameters) == Substituted(Tokens(pattern), parameters)
  {
    SourceOfTokens(pattern);
    ClearRun("", Tokens(pattern), [], parameters);
    Neutral(pattern);
    Neutral(Substituted(Tokens(pattern), parameters));
    assert Tokens(pattern) + [] == Tokens(pattern);
  }

  lemma Neutral(s: string)
    ensures "" + s == s && s + "" == s
  {
  }

  /** And, when no value is empty, only then: for every pattern, braces nested or not, and all such values. */
  lemma PathIsSubstitutionExactly(pattern: string, parameters: map<string, string>)
    requires NoneEmpty(Tokens(pattern), parameters)
    ensures GetPath(pattern, parameters) == Substituted(Tokens(pattern), parameters) <==>
            Clear("", Tokens(pattern), parameters)
  {
    if Clear("", Tokens(pattern), parameters) {
      ClearPathIsSubstitution(pattern, parameters);
    } else {
      SourceOfTokens(pattern);
      UnclearDiffers("", Tokens(pattern), parameters);
      Neutral(pattern);
      Neutral(Substituted(Tokens(pattern), parameters));
    }
  }

  // ---- Patterns without nested braces ----

  /** No brace is opened between an opening brace and the next closing one. */
  predicate Unnested(p: string) {
    forall i, j | 0 <= i < j < |p| && p[i] == '{' && p[j] == '{' :: exists k | i < k < j :: p[k] == '}'
  }

  /** Position i opens a pair of braces with no brace inside, and nothing that is a name. */
  predicate OpensDeadPair(s: string, i: nat) {
    exists j | i < j < |s| :: s[j] == '}' && NoBrace(s[i + 1..j]) && !IsName(s[i + 1..j])
  }

  predicate NoBrace(s: string) {
    forall i | 0 <= i < |s| :: s[i] != '{' && s[i] != '}'
  }

  /** Every opening brace opens a pair that is no placeholder, whatever follows. */
  predicate Dead(s: string) {
    forall i | 0 <= i < |s| && s[i] == '{' :: OpensDeadPair(s, i)
  }

  lemma DeadAppend(s: string, t: string)
    requires Dead(s) && Dead(t)
    ensures Dead(s + t)
  {
    forall i | 0 <= i < |s + t| && (s + t)[i] == '{' ensures OpensDeadPair(s + t, i) {
      if i < |s| { DeadPairBefore(s, t, i); } else { DeadPairAfter(s, t, i - |s|); }
    }
  }

  lemma DeadPairBefore(s: string, after: string, i: nat)
    requires OpensDeadPair(s, i)
    ensures OpensDeadPair(s + after, i)
  {
    var j :| i < j < |s| && s[j] == '}' && NoBrace(s[i + 1..j]) && !IsName(s[i + 1..j]);
    assert (s + after)[j] == '}' && (s + after)[i + 1..j] == s[i + 1..j];
  }

  lemma DeadPairAfter(before: string, s: string, i: nat)
    requires OpensDeadPair(s, i)
    ensures OpensDeadPair(before + s, |before| + i)
  {
    var n := |before|;
    var j :| i < j < |s| && s[j] == '}' && NoBrace(s[i + 1..j]) && !IsName(s[i + 1..j]);
    assert (before + s)[n + j] == '}' && (before + s)[n + i + 1..n + j] == s[i + 1..j];
  }

  /** In dead text there is no placeholder. */
  lemma NotInDead(s: string, name: string)
    requires Dead(s) && IsName(name)
    ensures !Occurs(s, "{" + name + "}")
  {
    var t := "{" + name + "}";
    forall i: nat ensures !OccursAt(s, t, i) {
      if i < |s| && s[i] == '{' {
        var j :| i < j < |s| && s[j] == '}' && NoBrace(s[i + 1..j]) && !IsName(s[i + 1..j]);
        ClosesElsewhere(s, name, i, j);
      } else if i < |s| {
        Mismatch(s, t, i, 0);
      }
    }
  }

  lemma {:induction false} DifferingChar(s: string, t: string) returns (m: nat)
    requires |s| == |t| && s != t
    ensures m < |s| && s[m] != t[m]
    decreases |s|
  {
    if s[0] != t[0] {
      m := 0;
    } else {
      assert s == [s[0]] + s[1..] && t == [t[0]] + t[1..];
      m := DifferingChar(s[1..], t[1..]);
      m := m + 1;
    }
  }

  lemma ClosesElsewhere(s: string, name: string, i: nat, j: nat)
    requires IsName(name) && i < j < |s| && s[j] == '}' && NoBrace(s[i + 1..j]) && !IsName(s[i + 1..j])
    ensures !OccursAt(s, "{" + name + "}", i)
  {
    var t := "{" + name + "}";
    var e := i + |name| + 1;
    if e < j {
      assert t[e - i] == '}' && s[i + 1..j][e - i - 1] != '}';
      Mismatch(s, t, i, e - i);
    } else if j < e && e < |s| {
      assert t[j - i] == name[j - i - 1];
      Mismatch(s, t, i, j - i);
    } else if j == e {
      var m := DifferingChar(s[i + 1..j], name);
      assert s[i + 1 + m] == s[i + 1..j][m] && t[m + 1] == name[m];
      Mismatch(s, t, i, m + 1);
    }
  }

  function Literals(t: string): seq<Token> {
    if t == "" then [] else [Literal(t[0])] + Literals(t[1..])
  }

  /** Text without an opening brace is literal. */
  lemma {:induction false} LiteralTokens(t: string, rest: string)
    requires forall i | 0 <= i < |t| :: t[i] != '{'
    ensures Tokens(t + rest) == Literals(t) + Tokens(rest)
    decreases |t|
  {
    if t == "" {
      assert t + rest == rest;
    } else {
      assert (t + rest)[1..] == t[1..] + rest;
      LiteralTokens(t[1..], rest);
      assert !StartsWithPlaceholder(t + rest);
      assert [Literal(t[0])] + (Literals(t[1..]) + Tokens(rest)) == Literals(t) + Tokens(rest);
    }
  }

  lemma {:induction false} ClearLiterals(done: string, t: string, tokens: seq<Token>, parameters: map<string, string>)
    ensures Clear(done, Literals(t) + tokens, parameters) <==> Clear(done + t, tokens, parameters)
    decreases |t|
  {
    if t == "" {
      assert Literals(t) + tokens == tokens && done + t == done;
    } else {
      assert (Literals(t) + tokens)[1..] == Literals(t[1..]) + tokens;
      ClearLiterals(done + [t[0]], t[1..], tokens, parameters);
      assert done + [t[0]] + t[1..] == done + t;
    }
  }

  /** The position of the next brace. */
  function NextBrace(p: string, i: nat): (j: nat)
    requires i <= |p|
    ensures i <= j <= |p| && forall k | i <= k < j :: p[k] != '{' && p[k] != '}'
    ensures j < |p| ==> p[j] == '{' || p[j] == '}'
    decreases |p| - i
  {
    if i == |p| || p[i] == '{' || p[i] == '}' then i else NextBrace(p, i + 1)
  }

  lemma UnnestedSuffix(p: string, n: nat)
    requires Unnested(p) && n <= |p|
    ensures Unnested(p[n..])
  {
    forall i, j | 0 <= i < j < |p[n..]| && p[n..][i] == '{' && p[n..][j] == '{'
      ensures exists k | i < k < j :: p[n..][k] == '}'
    {
      assert p[i + n] == '{' && p[j + n] == '{';
      var k :| i + n < k < j + n && p[k] == '}';
      assert p[n..][k - n] == '}';
    }
  }

  lemma EncodedIsDead(parameters: map<string, string>, name: string)
    ensures Dead(Encoded(parameters, name))
  {
    EncodedHasNoDelimiters(Parameter(parameters, name));
    assert !IsEncodedChar('{');
  }

  /** After dead text, an un-nested pattern is clear. */
  lemma {:induction false} UnnestedIsClear(done: string, p: string, parameters: map<string, string>)
    requires Dead(done) && Unnested(p)
    ensures Clear(done, Tokens(p), parameters)
    decreases |p|
  {
    if p != "" && StartsWithPlaceholder(p) {
      var name, rest := FirstName(p), p[|FirstName(p)| + 2..];
      NotInDead(done, name);
      EncodedIsDead(parameters, name);
      DeadAppend(done, Encoded(parameters, name));
      UnnestedSuffix(p, |name| + 2);
      UnnestedIsClear(done + Encoded(parameters, name), rest, parameters);
      assert ([Placeholder(name)] + Tokens(rest))[1..] == Tokens(rest);
    } else if p != "" {
      var n := PieceLength(p);
      var piece, rest := p[..n], p[n..];
      assert p == piece + rest;
      PieceTokens(p);
      ClearLiterals(done, piece, Tokens(rest), parameters);
      if rest != "" {
        PieceIsDead(p);
        DeadAppend(done, piece);
        UnnestedSuffix(p, n);
        UnnestedIsClear(done + piece, rest, parameters);
      }
    }
  }

  /** One character, or from an opening brace up to and including the next brace. */
  function PieceLength(p: string): (n: nat)
    requires p != ""
    ensures 1 <= n <= |p|
  {
    if p[0] == '{' && NextBrace(p, 1) < |p| then NextBrace(p, 1) + 1
    else if p[0] == '{' then |p|
    else 1
  }

  lemma PieceHasOneBrace(p: string)
    requires Unnested(p) && p != ""
    ensures forall i | 0 < i < PieceLength(p) :: p[i] != '{'
    ensures p[0] == '{' && NextBrace(p, 1) < |p| ==> p[NextBrace(p, 1)] == '}'
  {
    assert p[0] == '{' ==> forall k | 0 < k < NextBrace(p, 1) :: p[k] != '{';
  }

  lemma PieceIsDead(p: string)
    requires Unnested(p) && p != "" && !StartsWithPlaceholder(p) && PieceLength(p) < |p|
    ensures Dead(p[..PieceLength(p)])
  {
    PieceHasOneBrace(p);
    var piece := p[..PieceLength(p)];
    if p[0] == '{' {
      var j := NextBrace(p, 1);
      NoNameInPiece(p, j);
      assert piece[1..j] == p[1..j] && piece[j] == '}';
      assert OpensDeadPair(piece, 0);
    }
  }

  lemma NoNameInPiece(p: string, j: nat)
    requires p != "" && p[0] == '{' && !StartsWithPlaceholder(p) && 1 <= j < |p| && p[j] == '}'
    ensures !IsName(p[1..j])
  {
    if IsName(p[1..j]) {
      forall k | 1 <= k < j ensures IsNameChar(p[k]) { assert p[k] == p[1..j][k - 1]; }
      RunOfName(p, 1, j);
    }
  }

  lemma {:induction false} RunOfName(p: string, i: nat, j: nat)
    requires i <= j < |p| && (forall k | i <= k < j :: IsNameChar(p[k])) && !IsNameChar(p[j])
    ensures NameRun(p, i) == j - i
    decreases j - i
  {
    if i < j { RunOfName(p, i + 1, j); }
  }

  /** A piece that starts no placeholder is literal. */
  lemma PieceTokens(p: string)
    requires Unnested(p) && p != "" && !StartsWithPlaceholder(p)
    ensures Tokens(p) == Literals(p[..PieceLength(p)]) + Tokens(p[PieceLength(p)..])
  {
    var n := PieceLength(p);
    PieceHasOneBrace(p);
    assert p == p[..n] + p[n..];
    FirstLiteral(p[..n], p[n..]);
  }

  lemma FirstLiteral(piece: string, rest: string)
    requires piece != "" && !StartsWithPlaceholder(piece + rest)
    requires forall i | 0 < i < |piece| :: piece[i] != '{'
    ensures Tokens(piece + rest) == Literals(piece) + Tokens(rest)
  {
    LiteralTokens(piece[1..], rest);
    assert (piece + rest)[1..] == piece[1..] + rest;
    Assoc([Literal(piece[0])], Literals(piece[1..]), Tokens(rest));
  }

  /**
   For every pattern without nested braces, and all parameters, filling the placeholders one after the other is
   filling them all at once, however often a placeholder is repeated.
   */
  lemma PathIsSubstitution(pattern: string, parameters: map<string, string>)
    requires Unnested(pattern)
    ensures GetPath(pattern, parameters) == Substituted(Tokens(pattern), parameters)
  {
    UnnestedIsClear("", pattern, parameters);
    ClearPathIsSubstitution(pattern, parameters);
  }

  // ---- A family of patterns with nested braces ----

  lemma TokenAt(p: string, name: string, rest: string)
    requires IsName(name) && p == "{" + name + "}" + rest
    ensures Tokens(p) == [Placeholder(name)] + Tokens(rest)
  {
    var j := |name| + 1;
    assert p[j] == '}' && p[1..j] == name;
    forall k | 1 <= k < j ensures IsNameChar(p[k]) { assert p[k] == name[k - 1]; }
    RunOfName(p, 1, j);
    assert p[j + 1..] == rest;
  }

  lemma EncodedIsName(a: string, parameters: map<string, string>, b: string)
    requires IsName(a)
    ensures IsName(a + Encoded(parameters, b))
  {
    var x := Encoded(parameters, b);
    EncodedHasNoDelimiters(Parameter(parameters, b));
    forall i | 0 <= i < |x| ensures IsNameChar(x[i]) {
      assert x[i] in x && IsEncodedChar(x[i]);
    }
  }

  lemma OuterBraceIsLiteral(a: string, inner: string)
    requires IsName(a) && inner != "" && inner[0] == '{'
    ensures Tokens("{" + (a + inner)) == [Literal('{')] + Tokens(a + inner)
  {
    var p := "{" + (a + inner);
    forall k | 1 <= k < |a| + 1 ensures IsNameChar(p[k]) { assert p[k] == a[k - 1]; }
    assert p[|a| + 1] == '{';
    RunOfName(p, 1, |a| + 1);
    assert p[1..] == a + inner;
  }

  /** A pattern whose outer braces become a placeholder once the inner one is filled. */
  function NestedPattern(a: string, b: string, parameters: map<string, string>): string {
    "{" + (a + ("{" + b + "}" + ("}" + ("{" + (a + Encoded(parameters, b)) + "}"))))
  }

  /** Up to the last placeholder: the outer braces are literal text around the inner placeholder. */
  function NestedStart(a: string, b: string): seq<Token> {
    [Literal('{')] + (Literals(a) + [Placeholder(b), Literal('}')])
  }

  lemma NestedTokens(a: string, b: string, name: string)
    requires IsName(a) && IsName(b) && IsName(name)
    ensures Tokens("{" + (a + ("{" + b + "}" + ("}" + ("{" + name + "}"))))) == NestedStart(a, b) + [Placeholder(name)]
  {
    var later := "{" + name + "}";
    var inner := "{" + b + "}" + ("}" + later);
    OuterBraceIsLiteral(a, inner);
    LiteralTokens(a, inner);
    TokenAt(inner, b, "}" + later);
    ClosingBraceIsLiteral(later);
    assert later + "" == later;
    TokenAt(later, name, "");
    JoinTokens(a, b, name);
  }

  lemma ClosingBraceIsLiteral(rest: string)
    ensures Tokens("}" + rest) == [Literal('}')] + Tokens(rest)
  {
    assert ("}" + rest)[1..] == rest;
  }

  lemma JoinTokens(a: string, b: string, name: string)
    ensures [Literal('{')] + (Literals(a) + ([Placeholder(b)] + ([Literal('}')] + ([Placeholder(name)] + []))))
         == NestedStart(a, b) + [Placeholder(name)]
  {
  }

  lemma NestedStartIsClear(a: string, b: string, parameters: map<string, string>)
    requires IsName(a) && IsName(b)
    ensures Clear("", NestedStart(a, b), parameters)
  {
    var tail := [Placeholder(b), Literal('}')];
    assert NestedStart(a, b)[1..] == Literals(a) + tail;
    assert "" + "{" == "{";
    ClearLiterals("{", a, tail, parameters);
    NoClosingBrace("{" + a, b);
    assert tail[1..] == [Literal('}')] && [Literal('}')][1..] == [];
  }

  lemma NoClosingBrace(s: string, b: string)
    requires forall i | 0 <= i < |s| :: s[i] != '}'
    ensures !Occurs(s, "{" + b + "}")
  {
    var t := "{" + b + "}";
    forall i: nat ensures !OccursAt(s, t, i) {
      if i + |t| <= |s| { Mismatch(s, t, i, |t| - 1); }
    }
  }

  lemma {:induction false} SubstitutedLiterals(t: string, tokens: seq<Token>, parameters: map<string, string>)
    ensures Substituted(Literals(t) + tokens, parameters) == t + Substituted(tokens, parameters)
    decreases |t|
  {
    if t == "" {
      assert Literals(t) + tokens == tokens;
    } else {
      assert (Literals(t) + tokens)[1..] == Literals(t[1..]) + tokens;
      SubstitutedLiterals(t[1..], tokens, parameters);
      Assoc([t[0]], t[1..], Substituted(tokens, parameters));
      assert t == [t[0]] + t[1..];
    }
  }

  lemma NestedStartText(a: string, b: string, parameters: map<string, string>)
    ensures Substituted(NestedStart(a, b), parameters) == "{" + (a + Encoded(parameters, b)) + "}"
  {
    var tail := [Placeholder(b), Literal('}')];
    assert NestedStart(a, b)[1..] == Literals(a) + tail && tail[1..] == [Literal('}')] && [Literal('}')][1..] == [];
    SubstitutedLiterals(a, tail, parameters);
    assert Substituted([Literal('}')], parameters) == "}" + "" == "}";
    assert Substituted(tail, parameters) == Encoded(parameters, b) + "}";
    assert "{" + (a + (Encoded(parameters, b) + "}")) == "{" + (a + Encoded(parameters, b)) + "}";
  }

  lemma {:induction false} SubstitutedJoin(tokens: seq<Token>, more: seq<Token>, parameters: map<string, string>)
    ensures Substituted(tokens + more, parameters) == Substituted(tokens, parameters) + Substituted(more, parameters)
    decreases tokens
  {
    if tokens == [] {
      assert tokens + more == more;
    } else {
      assert (tokens + more)[1..] == tokens[1..] + more;
      SubstitutedJoin(tokens[1..], more, parameters);
      Assoc(TokenText(tokens[0], parameters), Substituted(tokens[1..], parameters), Substituted(more, parameters));
    }
  }

  /**
   With nested braces an early value can complete a text that looks like a later placeholder, and then the wrong
   one is filled: whatever the names and values, unless the later value is empty.
   */
  lemma NestedIsNotSubstitution(a: string, b: string, parameters: map<string, string>)
    requires IsName(a) && IsName(b) && Encoded(parameters, a + Encoded(parameters, b)) != ""
    ensures GetPath(NestedPattern(a, b, parameters), parameters)
         != Substituted(Tokens(NestedPattern(a, b, parameters)), parameters)
  {
    var name := a + Encoded(parameters, b);
    var start, last := NestedStart(a, b), [Placeholder(name)];
    var pattern := NestedPattern(a, b, parameters);
    EncodedIsName(a, parameters, b);
    NestedTokens(a, b, name);
    NestedStartIsClear(a, b, parameters);
    NestedStartText(a, b, parameters);
    SourceOfTokens(pattern);
    StartIsNamed(a, b);
    ClearRun("", start, last, parameters);
    LastIsUnclear(name, parameters);
    SubstitutedJoin(start, last, parameters);
    Neutral(pattern);
    Neutral(Substituted(start, parameters));
  }

  lemma StartIsNamed(a: string, b: string)
    requires IsName(b)
    ensures AreNamed(NestedStart(a, b))
  {
    LiteralsAreLiteral(a);
  }

  lemma {:induction false} LiteralsAreLiteral(t: string)
    ensures forall x | x in Literals(t) :: x.Literal?
  {
    if t != "" { LiteralsAreLiteral(t[1..]); }
  }

  lemma LastIsUnclear(name: string, parameters: map<string, string>)
    requires IsName(name) && Encoded(parameters, name) != ""
    ensures var done, last := "{" + name + "}", [Placeholder(name)];
            ReplaceAll(done + Source(last), last, parameters) != done + Substituted(last, parameters)
  {
    var done, last := "{" + name + "}", [Placeholder(name)];
    assert done[0..0 + |done|] == done && OccursAt(done, done, 0);
    UnclearDiffers(done, last, parameters);
  }
}
