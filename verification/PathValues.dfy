/** What a path tells of the values it was filled with, and how a receiver reads them back. */
module PathValues {
  import opened Encodings
  import opened PathTemplates
  import opened Values

  // ---- One value ----

  /** A longer value makes a longer path. */
  lemma {:induction false} LongerValue(tokens: seq<Token>, parameters: map<string, string>, name: string,
                                       v: string, w: string)
    requires |EncodeURIComponent(v)| < |EncodeURIComponent(w)|
    ensures var shorter := Substituted(tokens, parameters[name := v]);
            var longer := Substituted(tokens, parameters[name := w]);
            && |shorter| <= |longer| && (Placeholder(name) in tokens ==> |shorter| < |longer|)
  {
    if tokens != [] {
      LongerValue(tokens[1..], parameters, name, v, w);
      assert tokens == [tokens[0]] + tokens[1..];
    }
  }

  lemma {:induction false} SameLengthValue(tokens: seq<Token>, parameters: map<string, string>, name: string,
                                           v: string, w: string)
    requires |EncodeURIComponent(v)| == |EncodeURIComponent(w)| && Placeholder(name) in tokens
    requires Substituted(tokens, parameters[name := v]) == Substituted(tokens, parameters[name := w])
    ensures EncodeURIComponent(v) == EncodeURIComponent(w)
  {
    var p, q := parameters[name := v], parameters[name := w];
    var first, rest := tokens[0], tokens[1..];
    SameTokenLength(first, parameters, name, v, w);
    SamePrefix(TokenText(first, p), Substituted(rest, p), TokenText(first, q), Substituted(rest, q));
    if first != Placeholder(name) {
      assert tokens == [first] + rest;
      SameLengthValue(rest, parameters, name, v, w);
    }
  }

  lemma SameTokenLength(token: Token, parameters: map<string, string>, name: string, v: string, w: string)
    requires |EncodeURIComponent(v)| == |EncodeURIComponent(w)|
    ensures |TokenText(token, parameters[name := v])| == |TokenText(token, parameters[name := w])|
    ensures token == Placeholder(name) ==> TokenText(token, parameters[name := v]) == EncodeURIComponent(v)
  {
  }

  lemma SamePrefix(a: string, b: string, c: string, d: string)
    requires a + b == c + d && |a| == |c|
    ensures a == c && b == d
  {
    assert a == (a + b)[..|a|] && b == (a + b)[|a|..];
  }

  /** Two paths of a clear pattern that differ in one value only differ: no value gets lost. */
  lemma PathTellsValue(pattern: string, parameters: map<string, string>, name: string, v: string, w: string)
    requires Placeholder(name) in Tokens(pattern)
    requires Clear("", Tokens(pattern), parameters[name := v]) && Clear("", Tokens(pattern), parameters[name := w])
    requires GetPath(pattern, parameters[name := v]) == GetPath(pattern, parameters[name := w])
    ensures v == w
  {
    var tokens := Tokens(pattern);
    ClearPathIsSubstitution(pattern, parameters[name := v]);
    ClearPathIsSubstitution(pattern, parameters[name := w]);
    if |EncodeURIComponent(v)| < |EncodeURIComponent(w)| { LongerValue(tokens, parameters, name, v, w); }
    if |EncodeURIComponent(w)| < |EncodeURIComponent(v)| { LongerValue(tokens, parameters, name, w, v); }
    SameLengthValue(tokens, parameters, name, v, w);
    EncodeInjective(v, w);
  }

  // ---- All values ----

  /** After every placeholder there is the end, or a character that no encoded value has. */
  predicate Separated(tokens: seq<Token>) {
    forall i | 0 <= i < |tokens| - 1 && tokens[i].Placeholder? ::
      tokens[i + 1].Literal? && !IsUnescaped(tokens[i + 1].c) && tokens[i + 1].c != '%'
  }

  /** How many characters at the start may be those of an encoded value. */
  function ValueLength(path: string): (n: nat)
    ensures n <= |path| && (forall i | 0 <= i < n :: IsEncodedChar(path[i])) && (n < |path| ==> !IsEncodedChar(path[n]))
  {
    if path == "" || !IsEncodedChar(path[0]) then 0 else 1 + ValueLength(path[1..])
  }

  /** The bytes of the values, as a receiver reads them who knows the pattern. */
  function Received(tokens: seq<Token>, path: string): Option<seq<seq<Byte>>> {
    if tokens == [] then (if path == "" then Some([]) else None)
    else match tokens[0]
      case Literal(c) => if path != "" && path[0] == c then Received(tokens[1..], path[1..]) else None
      case Placeholder(_) =>
        var n := ValueLength(path);
        match (PercentDecode(path[..n]), Received(tokens[1..], path[n..]))
        case (Some(bytes), Some(rest)) => Some([bytes] + rest)
        case _ => None
  }

  /** The bytes of the values that were filled in, in order. */
  function Filled(tokens: seq<Token>, parameters: map<string, string>): seq<seq<Byte>> {
    if tokens == [] then []
    else
      var rest := Filled(tokens[1..], parameters);
      match tokens[0]
      case Literal(_) => rest
      case Placeholder(name) => [Utf8(if name in parameters then parameters[name] else "undefined")] + rest
  }

  lemma {:induction false} SubstitutedIsReceived(tokens: seq<Token>, parameters: map<string, string>)
    requires Separated(tokens)
    ensures Received(tokens, Substituted(tokens, parameters)) == Some(Filled(tokens, parameters))
  {
    if tokens != [] {
      var text, rest := TokenText(tokens[0], parameters), Substituted(tokens[1..], parameters);
      assert Separated(tokens[1..]) by {
        forall i | 0 <= i < |tokens[1..]| ensures tokens[1..][i] == tokens[i + 1] {}
      }
      SubstitutedIsReceived(tokens[1..], parameters);
      assert (text + rest)[|text|..] == rest && (text + rest)[..|text|] == text;
      match tokens[0] {
        case Literal(c) =>
        case Placeholder(name) =>
          ValueEnds(tokens, parameters);
          EncodedDecodes(Parameter(parameters, name));
      }
    }
  }

  lemma ValueEnds(tokens: seq<Token>, parameters: map<string, string>)
    requires Separated(tokens) && tokens != [] && tokens[0].Placeholder?
    ensures ValueLength(Substituted(tokens, parameters)) == |TokenText(tokens[0], parameters)|
  {
    var text, rest := TokenText(tokens[0], parameters), Substituted(tokens[1..], parameters);
    EncodedHasNoDelimiters(Parameter(parameters, tokens[0].name));
    if |tokens| > 1 {
      assert tokens[1..][0] == tokens[1];
      assert rest[0] == tokens[1].c;
    }
    EndsBefore(text, rest);
  }

  lemma {:induction false} EndsBefore(text: string, rest: string)
    requires (forall c | c in text :: IsEncodedChar(c)) && (rest != "" ==> !IsEncodedChar(rest[0]))
    ensures ValueLength(text + rest) == |text|
  {
    if text == "" {
      assert text + rest == rest;
    } else {
      EndsBefore(text[1..], rest);
      assert (text + rest)[1..] == text[1..] + rest;
    }
  }

  /** A receiver reads from the path of a clear pattern exactly the values that it was filled with. */
  lemma PathIsReceived(pattern: string, parameters: map<string, string>)
    requires Clear("", Tokens(pattern), parameters) && Separated(Tokens(pattern))
    ensures Received(Tokens(pattern), GetPath(pattern, parameters)) == Some(Filled(Tokens(pattern), parameters))
  {
    ClearPathIsSubstitution(pattern, parameters);
    SubstitutedIsReceived(Tokens(pattern), parameters);
  }
}
