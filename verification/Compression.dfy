/** Compression negotiation in front of the gRPC handler: server/standard/compression.go. */
module Compression {
  import opened Common
  import opened GoStrings

  /** The four header fields the handler reads, each multi-valued; it writes only the first. */
  datatype Header = Header(
    grpcEncoding: seq<string>,
    grpcAcceptEncoding: seq<string>,
    connectAcceptEncoding: seq<string>,
    acceptEncoding: seq<string>)

  const IDENTITY := "identity"

  // ----- what the nested scan means -----

  /** One comma-separated item without its parameters. */
  function Token(item: string): (r: string)
    ensures TrimSpace(r) == r
  {
    var clean := TrimSpace(Split(item, ';')[0]);
    TrimmedIsFixed(clean);
    clean
  }

  /** t stands before the first semicolon, without the space around it. */
  ghost predicate IsTokenOf(item: string, t: string) {
    exists before: string, after: string ::
      item == before + after && ';' !in before && (after == "" || after[0] == ';') &&
      Tight(t) && exists l, r :: before == l + t + r && AllSpace(l) && AllSpace(r)
  }

  lemma TokenIff(item: string, t: string)
    ensures Token(item) == t <==> IsTokenOf(item, t)
  {
    hide Split, TrimSpace, Tight, AllSpace;
    var first := Split(item, ';')[0];
    var rest := FirstPiece(item, ';');
    TrimSpaceIff(first, t);
    TokenTrims(item);
    forall before: string, after: string
      | item == before + after && ';' !in before && (after == "" || after[0] == ';')
      ensures before == first
    {
      PieceIsFirst(item, ';', before, after);
    }
  }

  lemma TokenTrims(item: string)
    ensures Token(item) == TrimSpace(Split(item, ';')[0])
  {
  }

  lemma FirstPiece(s: string, c: char) returns (after: string)
    ensures c !in Split(s, c)[0] && s == Split(s, c)[0] + after && (after == "" || after[0] == c)
  {
    var i := IndexOf(s, c);
    if i < 0 {
      after := "";
      assert s + "" == s;
    } else {
      after := s[i..];
      assert s == s[..i] + after;
    }
  }

  lemma PieceIsFirst(s: string, c: char, first: string, after: string)
    requires s == first + after && c !in first && (after == "" || after[0] == c)
    ensures first == Split(s, c)[0]
  {
    if after != "" {
      IndexOfIs(s, c, |first|);
    } else {
      assert s == first;
    }
  }

  function TokensOf(items: seq<string>): (r: seq<string>)
    ensures |r| == |items|
  {
    seq(|items|, k requires 0 <= k < |items| => Token(items[k]))
  }

  /** All tokens of all values of a header field, in order. */
  function Tokens(values: seq<string>): seq<string> {
    if values == [] then [] else TokensOf(Split(values[0], ',')) + Tokens(values[1..])
  }

  /** The first token in the set of registered compressors, or "". */
  function FirstIn(tokens: seq<string>, supported: set<string>): string {
    if tokens == [] then ""
    else if tokens[0] in supported then tokens[0]
    else FirstIn(tokens[1..], supported)
  }

  lemma {:induction false} FirstInConcat(a: seq<string>, b: seq<string>, supported: set<string>)
    requires "" !in supported
    ensures FirstIn(a + b, supported)
         == if FirstIn(a, supported) != "" then FirstIn(a, supported) else FirstIn(b, supported)
  {
    if a == [] {
      assert a + b == b;
    } else if a[0] !in supported {
      assert (a + b)[1..] == a[1..] + b;
      FirstInConcat(a[1..], b, supported);
    }
  }

  lemma {:induction false} TokensConcat(a: seq<string>, b: seq<string>)
    ensures Tokens(a + b) == Tokens(a) + Tokens(b)
  {
    if a == [] {
      assert a + b == b;
    } else {
      assert (a + b)[1..] == a[1..] + b;
      TokensConcat(a[1..], b);
    }
  }

  /** Several header lines mean what one line with all their values, joined by commas, means. */
  lemma {:induction false} LinesAreOneLine(values: seq<string>)
    requires values != []
    ensures Tokens(values) == TokensOf(Split(Join(values, ','), ','))
  {
    if |values| == 1 {
      assert Tokens(values[1..]) == [];
    } else {
      LinesAreOneLine(values[1..]);
      var a, b := Split(values[0], ','), Split(Join(values[1..], ','), ',');
      hide Split, Token, TokensOf;
      SplitBetween(values[0], ',', Join(values[1..], ','));
      TokensOfConcat(a, b);
    }
  }

  lemma TokensOfConcat(a: seq<string>, b: seq<string>)
    ensures TokensOf(a + b) == TokensOf(a) + TokensOf(b)
  {
  }

  /** FirstIn returns the earliest supported token, and "" exactly when there is none. */
  lemma {:induction false} FirstInMeaning(tokens: seq<string>, supported: set<string>)
    requires "" !in supported
    ensures FirstIn(tokens, supported) == "" <==> forall k :: 0 <= k < |tokens| ==> tokens[k] !in supported
    ensures FirstIn(tokens, supported) != "" ==>
              exists k :: 0 <= k < |tokens| && tokens[k] == FirstIn(tokens, supported) && tokens[k] in supported &&
                          forall j :: 0 <= j < k ==> tokens[j] !in supported
  {
    if tokens != [] {
      if tokens[0] in supported {
        assert tokens[0] == FirstIn(tokens, supported);
      } else {
        var rest := tokens[1..];
        FirstInMeaning(rest, supported);
        var c := FirstIn(rest, supported);
        if c != "" {
          var k :| 0 <= k < |rest| && rest[k] == c && rest[k] in supported &&
                   forall j :: 0 <= j < k ==> rest[j] !in supported;
          assert tokens[k + 1] == c && forall j :: 0 <= j < k + 1 ==> tokens[j] !in supported;
        } else {
          assert forall k :: 1 <= k < |tokens| ==> tokens[k] == rest[k - 1];
        }
      }
    }
  }

  lemma {:induction false} FirstInTrimmed(values: seq<string>, supported: set<string>)
    ensures TrimSpace(FirstIn(Tokens(values), supported)) == FirstIn(Tokens(values), supported)
  {
    if values == [] {
      TrimmedIsFixed("");
    } else {
      FirstInTrimmed(values[1..], supported);
      FirstInTrimmedItems(TokensOf(Split(values[0], ',')), Tokens(values[1..]), supported);
    }
  }

  lemma {:induction false} FirstInTrimmedItems(a: seq<string>, b: seq<string>, supported: set<string>)
    requires forall k :: 0 <= k < |a| ==> TrimSpace(a[k]) == a[k]
    requires TrimSpace(FirstIn(b, supported)) == FirstIn(b, supported)
    ensures TrimSpace(FirstIn(a + b, supported)) == FirstIn(a + b, supported)
  {
    if a == [] {
      assert a + b == b;
    } else {
      assert (a + b)[1..] == a[1..] + b;
      FirstInTrimmedItems(a[1..], b, supported);
    }
  }

  /**
   firstSupportedCompressor: two nested loops with an early return find the first supported token of the
   flattened header field, already trimmed.
   */
  method FirstSupportedCompressor(compressors: seq<string>, supported: set<string>) returns (c: string)
    requires "" !in supported
    ensures c == FirstIn(Tokens(compressors), supported)
    ensures TrimSpace(c) == c
  {
    FirstInTrimmed(compressors, supported);
    for i := 0 to |compressors|
      invariant FirstIn(Tokens(compressors), supported) == FirstIn(Tokens(compressors[i..]), supported)
    {
      var items := Split(compressors[i], ',');
      assert compressors[i..][1..] == compressors[i + 1..];
      FirstInConcat(TokensOf(items), Tokens(compressors[i + 1..]), supported);
      for j := 0 to |items|
        invariant FirstIn(TokensOf(items), supported) == FirstIn(TokensOf(items)[j..], supported)
      {
        var clean := TrimSpace(Split(items[j], ';')[0]);
        assert TokensOf(items)[j..][0] == clean && TokensOf(items)[j..][1..] == TokensOf(items)[j + 1..];
        if clean in supported {
          return clean;
        }
      }
    }
    return "";
  }

  // ----- the decision -----

  datatype Outcome =
    | BadRequest(message: string)
    | Forwarded(header: Header)

  predicate IsHealth(uri: string) { "/grpc.health" <= uri }

  /** What a request that offers nothing gets: "identity", or "" when it came with a blank value. */
  function Fallback(h: Header): string {
    if h.grpcEncoding == [] then IDENTITY else ""
  }

  /** The three accept fields tier by tier, or the fallback. */
  function Chosen(h: Header, supported: set<string>): string {
    var g := FirstIn(Tokens(h.grpcAcceptEncoding), supported);
    var c := FirstIn(Tokens(h.connectAcceptEncoding), supported);
    var a := FirstIn(Tokens(h.acceptEncoding), supported);
    if g != "" then g else if c != "" then c else if a != "" then a else Fallback(h)
  }

  /** Some accept field offers a supported compressor. */
  ghost predicate Offers(h: Header, supported: set<string>) {
    exists t :: t in Tokens(h.grpcAcceptEncoding + h.connectAcceptEncoding + h.acceptEncoding) && t in supported
  }

  function ShowValues(values: seq<string>): string {
    "[" + (if values == [] then "" else Join(values, ' ')) + "]"
  }

  /** What happens to a request, as a function of the header the handler receives. */
  function Decide(supported: set<string>, enforce: bool, uri: string, h: Header): Outcome {
    var vv := h.grpcEncoding;
    if IsHealth(uri) then Forwarded(h)
    else if |vv| > 1 then BadRequest("grpc-encoding should be a single value, got: " + ShowValues(vv))
    else if |vv| == 1 && TrimSpace(vv[0]) != "" then
      if TrimSpace(vv[0]) in supported then Forwarded(h)
      else BadRequest("grpc-encoding " + TrimSpace(vv[0]) + " is not supported")
    else if enforce && FirstIn(Tokens(h.grpcAcceptEncoding), supported) == ""
            && FirstIn(Tokens(h.connectAcceptEncoding), supported) == ""
            && FirstIn(Tokens(h.acceptEncoding), supported) == "" then
      BadRequest("no supported compression found.")
    else Forwarded(h.(grpcEncoding := vv + [Chosen(h, supported)]))
  }

  class Request {
    const uri: string
    var header: Header

    constructor (uri: string, header: Header)
      ensures this.uri == uri && this.header == header
    {
      this.uri := uri;
      this.header := header;
    }
  }

  /** CompressionHandler's function: None when it passes the request on, possibly with its header extended. */
  method Handle(enforce: bool, r: Request, supported: set<string>) returns (rejected: Option<string>)
    requires "" !in supported
    modifies r
    ensures match Decide(supported, enforce, r.uri, old(r.header))
            case BadRequest(message) => rejected == Some(message) && r.header == old(r.header)
            case Forwarded(header) => rejected == None && r.header == header
  {
    var compressor := IDENTITY;
    if IsHealth(r.uri) {
      return None;
    }
    var vv := r.header.grpcEncoding;
    if |vv| > 0 {
      if |vv| != 1 {
        return Some("grpc-encoding should be a single value, got: " + ShowValues(vv));
      }
      compressor := TrimSpace(vv[0]);
      if compressor != "" {
        if compressor !in supported {
          return Some("grpc-encoding " + compressor + " is not supported");
        }
        return None;
      }
    }
    var c := FirstSupportedCompressor(r.header.grpcAcceptEncoding, supported);
    if c != "" {
      compressor := TrimSpace(c);
    } else {
      c := FirstSupportedCompressor(r.header.connectAcceptEncoding, supported);
      if c != "" {
        compressor := TrimSpace(c);
      } else {
        c := FirstSupportedCompressor(r.header.acceptEncoding, supported);
        if c != "" {
          compressor := TrimSpace(c);
        } else if enforce {
          return Some("no supported compression found.");
        }
      }
    }
    r.header := r.header.(grpcEncoding := r.header.grpcEncoding + [compressor]);
    return None;
  }

  // ----- properties of the decision -----

  /** The three tiers are one scan over the three fields laid end to end. */
  lemma TiersAreOneScan(h: Header, supported: set<string>)
    requires "" !in supported
    ensures var c := FirstIn(Tokens(h.grpcAcceptEncoding + h.connectAcceptEncoding + h.acceptEncoding), supported);
            Chosen(h, supported) == (if c != "" then c else Fallback(h)) && (c != "" <==> Offers(h, supported))
  {
    var g, c, a := h.grpcAcceptEncoding, h.connectAcceptEncoding, h.acceptEncoding;
    TokensConcat(g, c);
    TokensConcat(g + c, a);
    FirstInConcat(Tokens(g), Tokens(c), supported);
    FirstInConcat(Tokens(g) + Tokens(c), Tokens(a), supported);
    FirstInMeaning(Tokens(g + c + a), supported);
  }

  /** No grpc-encoding value, or one blank one. */
  predicate Unencoded(h: Header) {
    h.grpcEncoding == [] || (|h.grpcEncoding| == 1 && TrimSpace(h.grpcEncoding[0]) == "")
  }

  /** What an unencoded request needs: nothing without enforcement, a supported offer with it. */
  ghost predicate Acceptable(supported: set<string>, enforce: bool, uri: string, h: Header) {
    || IsHealth(uri)
    || (|h.grpcEncoding| == 1 && TrimSpace(h.grpcEncoding[0]) in supported)
    || (Unencoded(h) && (enforce ==> Offers(h, supported)))
  }

  /** Exactly which requests are forwarded. */
  lemma ForwardedIff(supported: set<string>, enforce: bool, uri: string, h: Header)
    requires "" !in supported
    ensures Decide(supported, enforce, uri, h).Forwarded? <==> Acceptable(supported, enforce, uri, h)
  {
    TiersAreOneScan(h, supported);
    var g, c, a := Tokens(h.grpcAcceptEncoding), Tokens(h.connectAcceptEncoding), Tokens(h.acceptEncoding);
    TokensConcat(h.grpcAcceptEncoding, h.connectAcceptEncoding);
    TokensConcat(h.grpcAcceptEncoding + h.connectAcceptEncoding, h.acceptEncoding);
    FirstInConcat(g, c, supported);
    FirstInConcat(g + c, a, supported);
  }

  /** Registering more compressors never turns a request away. */
  lemma AcceptanceIsMonotone(s1: set<string>, s2: set<string>, enforce: bool, uri: string, h: Header)
    requires s1 <= s2 && "" !in s2
    ensures Decide(s1, enforce, uri, h).Forwarded? ==> Decide(s2, enforce, uri, h).Forwarded?
  {
    ForwardedIff(s1, enforce, uri, h);
    ForwardedIff(s2, enforce, uri, h);
    if Offers(h, s1) {
      var t :| t in Tokens(h.grpcAcceptEncoding + h.connectAcceptEncoding + h.acceptEncoding) && t in s1;
      assert t in s2;
    }
  }

  /** Enforcement only rejects: what it lets through, it lets through with the same header. */
  lemma EnforcementOnlyRejects(supported: set<string>, uri: string, h: Header)
    requires "" !in supported
    ensures Decide(supported, true, uri, h).Forwarded? ==>
              Decide(supported, false, uri, h) == Decide(supported, true, uri, h)
    ensures Decide(supported, false, uri, h).Forwarded? && Decide(supported, true, uri, h).BadRequest? <==>
            !IsHealth(uri) && !Offers(h, supported) && Unencoded(h)
  {
    ForwardedIff(supported, true, uri, h);
    ForwardedIff(supported, false, uri, h);
  }

  lemma ChosenIsClean(h: Header, supported: set<string>)
    requires "" !in supported
    ensures TrimSpace(Chosen(h, supported)) == Chosen(h, supported)
    ensures h.grpcEncoding == [] ==> Chosen(h, supported) != ""
  {
    FirstInTrimmed(h.grpcAcceptEncoding, supported);
    FirstInTrimmed(h.connectAcceptEncoding, supported);
    FirstInTrimmed(h.acceptEncoding, supported);
    TrimmedIsFixed(IDENTITY);
  }

  /**
   Stability: a forwarded request passes through the handler again unchanged exactly when it is a health
   request, or came with one nonblank grpc-encoding value, or came with none and either offers a supported
   compressor or "identity" is registered as one.
   The single blank value is the case that fails: a second value is appended behind it.
   */
  lemma SecondPassIff(supported: set<string>, enforce: bool, uri: string, h: Header)
    requires "" !in supported && Decide(supported, enforce, uri, h).Forwarded?
    ensures var h' := Decide(supported, enforce, uri, h).header;
            Decide(supported, enforce, uri, h') == Forwarded(h') <==>
            || IsHealth(uri)
            || (|h.grpcEncoding| == 1 && TrimSpace(h.grpcEncoding[0]) != "")
            || (h.grpcEncoding == [] && (Offers(h, supported) || IDENTITY in supported))
  {
    ChosenIsClean(h, supported);
    TiersAreOneScan(h, supported);
    FirstInMeaning(Tokens(h.grpcAcceptEncoding + h.connectAcceptEncoding + h.acceptEncoding), supported);
  }

  /** The failing case at work: one blank value becomes two blank values, which the next pass refuses. */
  lemma BlankValueGrows(uri: string)
    requires !IsHealth(uri)
    ensures var h := Header([""], [], [], []);
            var h' := Header(["", ""], [], [], []);
            Decide({}, false, uri, h) == Forwarded(h') && Decide({}, false, uri, h').BadRequest?
  {
  }

  /** Under enforcement the next handler sees exactly one value, a supported one, unless it came in blank. */
  lemma EnforcedMeansEncoded(supported: set<string>, uri: string, h: Header)
    requires "" !in supported && !IsHealth(uri) && Decide(supported, true, uri, h).Forwarded?
    ensures var vv := Decide(supported, true, uri, h).header.grpcEncoding;
            |vv| == 1 && TrimSpace(vv[0]) in supported <==> !(|h.grpcEncoding| == 1 && TrimSpace(h.grpcEncoding[0]) == "")
  {
    ForwardedIff(supported, true, uri, h);
    TiersAreOneScan(h, supported);
    ChosenIsClean(h, supported);
    FirstInMeaning(Tokens(h.grpcAcceptEncoding + h.connectAcceptEncoding + h.acceptEncoding), supported);
  }

  // ----- every request's answer -----

  /** What the client offers, best first: the tokens of the three accept fields laid end to end. */
  function OffersOf(h: Header): seq<string> {
    Tokens(h.grpcAcceptEncoding + h.connectAcceptEncoding + h.acceptEncoding)
  }

  /** The earliest offer that is supported. */
  ghost predicate FirstOffer(h: Header, supported: set<string>, c: string) {
    exists k :: 0 <= k < |OffersOf(h)| && OffersOf(h)[k] == c && c in supported &&
                forall j :: 0 <= j < k ==> OffersOf(h)[j] !in supported
  }

  /** The value appended for an unencoded request. */
  ghost predicate Picks(h: Header, supported: set<string>, c: string) {
    if Offers(h, supported) then FirstOffer(h, supported, c)
    else c == if h.grpcEncoding == [] then "identity" else ""
  }

  /** The answer to a request, on the request and the registered compressors. */
  ghost predicate Answers(supported: set<string>, enforce: bool, uri: string, h: Header, outcome: Outcome) {
    if "/grpc.health" <= uri then outcome == Forwarded(h)
    else if |h.grpcEncoding| > 1 then
      outcome == BadRequest("grpc-encoding should be a single value, got: [" + Join(h.grpcEncoding, ' ') + "]")
    else if Unencoded(h) then
      if enforce && !Offers(h, supported) then outcome == BadRequest("no supported compression found.")
      else exists c :: Picks(h, supported, c) && outcome == Forwarded(h.(grpcEncoding := h.grpcEncoding + [c]))
    else
      var c := TrimSpace(h.grpcEncoding[0]);
      outcome == if c in supported then Forwarded(h) else BadRequest("grpc-encoding " + c + " is not supported")
  }

  lemma FirstOfferIsUnique(h: Header, supported: set<string>, c: string, c': string)
    requires FirstOffer(h, supported, c) && FirstOffer(h, supported, c')
    ensures c == c'
  {
  }

  lemma ChosenIsPicked(h: Header, supported: set<string>)
    requires "" !in supported
    ensures Picks(h, supported, Chosen(h, supported))
  {
    TiersAreOneScan(h, supported);
    FirstInMeaning(OffersOf(h), supported);
  }

  lemma PickIsUnique(h: Header, supported: set<string>, c: string, c': string)
    requires Picks(h, supported, c) && Picks(h, supported, c')
    ensures c == c'
  {
    if Offers(h, supported) {
      FirstOfferIsUnique(h, supported, c, c');
    }
  }

  lemma DecideAnswers(supported: set<string>, enforce: bool, uri: string, h: Header)
    requires "" !in supported
    ensures Answers(supported, enforce, uri, h, Decide(supported, enforce, uri, h))
  {
    hide Picks, Offers, Chosen;
    ChosenIsPicked(h, supported);
    ForwardedIff(supported, enforce, uri, h);
    assert "grpc-encoding should be a single value, got: " + "[" == "grpc-encoding should be a single value, got: [";
  }

  /**
   Exactly what becomes of every request: an unencoded one is forwarded with one more value, its earliest
   supported offer over all three accept fields, or else "identity", or "" behind a blank value.
   */
  lemma DecideIff(supported: set<string>, enforce: bool, uri: string, h: Header, outcome: Outcome)
    requires "" !in supported
    ensures Decide(supported, enforce, uri, h) == outcome <==> Answers(supported, enforce, uri, h, outcome)
  {
    hide Picks, Offers, Decide;
    DecideAnswers(supported, enforce, uri, h);
    forall c, c' | Picks(h, supported, c) && Picks(h, supported, c') ensures c == c' {
      PickIsUnique(h, supported, c, c');
    }
  }
}
