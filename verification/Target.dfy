/** Target parsing and address rendering: server/standard/resolver.go, parseTarget. */
module Target {
  import opened Common
  import opened GoStrings

  // ----- net.SplitHostPort -----

  datatype AddrError = MissingPort | TooManyColons | MissingBracket | UnexpectedOpen | UnexpectedClose

  function SplitHostPort(s: string): Result<(string, string), AddrError> {
    var i := LastIndexOf(s, ':');
    if i < 0 then Err(MissingPort)
    else if s[0] == '[' then
      var end := IndexOf(s, ']');
      if end < 0 then Err(MissingBracket)
      else if end + 1 == |s| then Err(MissingPort)
      else if end + 1 != i then (if s[end + 1] == ':' then Err(TooManyColons) else Err(MissingPort))
      else if '[' in s[1..] then Err(UnexpectedOpen)
      else if ']' in s[end + 1..] then Err(UnexpectedClose)
      else Ok((s[1..end], s[i + 1..]))
    else if ':' in s[..i] then Err(TooManyColons)
    else if '[' in s then Err(UnexpectedOpen)
    else if ']' in s then Err(UnexpectedClose)
    else Ok((s[..i], s[i + 1..]))
  }

  predicate Bracketless(s: string) {
    '[' !in s && ']' !in s
  }

  /** A port as every successful split yields it. */
  predicate CleanPort(p: string) {
    ':' !in p && Bracketless(p)
  }

  /** `host:port` */
  predicate PlainForm(s: string, h: string, p: string) {
    s == h + ":" + p && ':' !in h && Bracketless(h) && CleanPort(p)
  }

  /** `[host]:port` */
  predicate BracketForm(s: string, h: string, p: string) {
    s == "[" + h + "]:" + p && Bracketless(h) && CleanPort(p)
  }

  lemma PlainFormSplits(s: string, h: string, p: string)
    requires PlainForm(s, h, p)
    ensures SplitHostPort(s) == Ok((h, p))
  {
    assert s[..|h|] == h && s[|h| + 1..] == p;
    LastIndexOfIs(s, ':', |h|);
    assert Bracketless(s);
  }

  lemma BracketFormSplits(s: string, h: string, p: string)
    requires BracketForm(s, h, p)
    ensures SplitHostPort(s) == Ok((h, p))
  {
    var n := |h|;
    assert s[..n + 1] == "[" + h && s[1..n + 1] == h;
    IndexOfIs(s, ']', n + 1);
    assert s[n + 3..] == p;
    LastIndexOfIs(s, ':', n + 2);
    BracketFormParts(s, h, p);
  }

  lemma BracketFormParts(s: string, h: string, p: string)
    requires BracketForm(s, h, p)
    ensures '[' !in s[1..] && ']' !in s[|h| + 2..]
  {
    assert s[1..] == h + "]:" + p && s[|h| + 2..] == ":" + p;
  }

  lemma BracketedGivesForm(s: string)
    requires SplitHostPort(s).Ok? && s[0] == '['
    ensures var (h, p) := SplitHostPort(s).value; BracketForm(s, h, p)
  {
    var (h, p) := SplitHostPort(s).value;
    var i := LastIndexOf(s, ':');
    assert s[..i - 1] == "[" + h;
    assert s[1..] == h + "]:" + p && s[i - 1..] == "]:" + p;
    assert s == "[" + h + "]:" + p;
  }

  lemma PlainGivesForm(s: string)
    requires SplitHostPort(s).Ok? && s[0] != '['
    ensures var (h, p) := SplitHostPort(s).value; PlainForm(s, h, p)
  {
    var (h, p) := SplitHostPort(s).value;
    assert s == h + ":" + p;
  }

  lemma SplitGivesForm(s: string)
    requires SplitHostPort(s).Ok?
    ensures var (h, p) := SplitHostPort(s).value; PlainForm(s, h, p) || BracketForm(s, h, p)
  {
    if s[0] == '[' {
      BracketedGivesForm(s);
    } else {
      PlainGivesForm(s);
    }
  }

  /** SplitHostPort accepts exactly the two forms and returns their parts. */
  lemma SplitHostPortIff(s: string, h: string, p: string)
    ensures SplitHostPort(s) == Ok((h, p)) <==> PlainForm(s, h, p) || BracketForm(s, h, p)
  {
    if PlainForm(s, h, p) {
      PlainFormSplits(s, h, p);
    } else if BracketForm(s, h, p) {
      BracketFormSplits(s, h, p);
    } else if SplitHostPort(s).Ok? {
      SplitGivesForm(s);
    }
  }

  // ----- net.ParseIP -----

  predicate IsDigit(c: char) { '0' <= c <= '9' }

  predicate IsHex(c: char) { IsDigit(c) || 'a' <= c <= 'f' || 'A' <= c <= 'F' }

  function DigitValue(c: char): nat
    requires IsDigit(c)
  {
    c as int - '0' as int
  }

  /** One octet of a dotted IPv4 address: at most 255, no leading zero. */
  function ParseOctet(s: string): Option<nat> {
    if !(1 <= |s| <= 3) || (exists k :: 0 <= k < |s| && !IsDigit(s[k])) || (|s| > 1 && s[0] == '0') then None
    else
      var v := if |s| == 1 then DigitValue(s[0])
               else if |s| == 2 then 10 * DigitValue(s[0]) + DigitValue(s[1])
               else 100 * DigitValue(s[0]) + 10 * DigitValue(s[1]) + DigitValue(s[2]);
      if v <= 255 then Some(v) else None
  }

  datatype IPv4 = IPv4(a: nat, b: nat, c: nat, d: nat) {
    predicate Valid() { a < 256 && b < 256 && c < 256 && d < 256 }
  }

  function ParseIPv4(s: string): Option<IPv4> {
    var f := Split(s, '.');
    if |f| != 4 then None
    else
      var a, b, c, d := ParseOctet(f[0]), ParseOctet(f[1]), ParseOctet(f[2]), ParseOctet(f[3]);
      if a.Some? && b.Some? && c.Some? && d.Some? then Some(IPv4(a.value, b.value, c.value, d.value)) else None
  }

  function HexRun(s: string): (n: nat)
    ensures n <= |s| && (forall k :: 0 <= k < n ==> IsHex(s[k])) && (n < |s| ==> !IsHex(s[n]))
  {
    if s != "" && IsHex(s[0]) then 1 + HexRun(s[1..]) else 0
  }

  /** All sixteen bytes present, or a `::` standing for at least one missing group. */
  predicate V6Complete(bytes: nat, ellipsis: bool) {
    if bytes < 16 then ellipsis else !ellipsis
  }

  /** The group loop of the IPv6 parser, `bytes` bytes in, `ellipsis` when `::` was seen. */
  predicate V6Groups(s: string, bytes: nat, ellipsis: bool)
    requires bytes <= 16
    decreases 18 - bytes
  {
    if bytes >= 16 then s == "" && V6Complete(bytes, ellipsis)
    else
      var off := HexRun(s);
      && 1 <= off <= 4
      && if off < |s| && s[off] == '.' then
           (ellipsis || bytes == 12) && bytes + 4 <= 16 && ParseIPv4(s).Some? && V6Complete(bytes + 4, ellipsis)
         else if off == |s| then V6Complete(bytes + 2, ellipsis)
         else
           && s[off] == ':' && off + 1 < |s|
           && if s[off + 1] == ':' then
                !ellipsis && if off + 2 == |s| then V6Complete(bytes + 2, true)
                             else bytes + 2 <= 16 && V6Groups(s[off + 2..], bytes + 2, true)
              else bytes + 2 <= 16 && V6Groups(s[off + 1..], bytes + 2, ellipsis)
  }

  /** IPv6 without a zone, which net.ParseIP refuses. */
  predicate IsIPv6(s: string) {
    '%' !in s && if "::" <= s then s == "::" || V6Groups(s[2..], 0, true) else V6Groups(s, 0, false)
  }

  /** Which of the two syntaxes the first special character selects. */
  function FirstSpecial(s: string): Option<char> {
    if s == "" then None
    else if s[0] == '.' || s[0] == ':' || s[0] == '%' then Some(s[0])
    else FirstSpecial(s[1..])
  }

  /** net.ParseIP(s) != nil. */
  predicate IsIP(s: string) {
    match FirstSpecial(s)
    case Some('.') => ParseIPv4(s).Some?
    case Some(':') => IsIPv6(s)
    case _ => false
  }

  // ----- parseTarget -----

  const DEFAULT_PORT := "9000"

  datatype TargetError = MissingAddr | InvalidTarget(target: string)

  function ParseTarget(target: string): Result<(string, string), TargetError> {
    if target == "" then Err(MissingAddr)
    else if IsIP(target) then Ok((target, DEFAULT_PORT))
    else
      match SplitHostPort(target)
      case Ok(hp) => Ok((if hp.0 == "" then "localhost" else hp.0, if hp.1 == "" then DEFAULT_PORT else hp.1))
      case Err(_) =>
        match SplitHostPort(target + ":" + DEFAULT_PORT)
        case Ok(hp) => Ok(hp)
        case Err(_) => Err(InvalidTarget(target))
  }

  // ----- which texts are IP literals -----

  function Digit(n: nat): char
    requires n < 10
  {
    '0' + n as char
  }

  function RenderOctet(n: nat): string
    requires n < 256
  {
    if n < 10 then [Digit(n)]
    else if n < 100 then [Digit(n / 10), Digit(n % 10)]
    else [Digit(n / 100), Digit(n / 10 % 10), Digit(n % 10)]
  }

  function RenderIPv4(ip: IPv4): string
    requires ip.Valid()
  {
    Join([RenderOctet(ip.a), RenderOctet(ip.b), RenderOctet(ip.c), RenderOctet(ip.d)], '.')
  }

  lemma DigitRoundTrip(n: nat)
    requires n < 10
    ensures IsDigit(Digit(n)) && DigitValue(Digit(n)) == n && (Digit(n) == '0' <==> n == 0)
  {
  }

  lemma OctetRoundTrip(n: nat)
    requires n < 256
    ensures ParseOctet(RenderOctet(n)) == Some(n) && '.' !in RenderOctet(n)
  {
    var s := RenderOctet(n);
    DigitRoundTrip(n / 100);
    DigitRoundTrip(n / 10 % 10);
    DigitRoundTrip(n % 10);
    assert forall k :: 0 <= k < |s| ==> IsDigit(s[k]);
  }

  /** Rendering an IPv4 address and parsing it back gives the same four bytes. */
  lemma IPv4RoundTrip(ip: IPv4)
    requires ip.Valid()
    ensures ParseIPv4(RenderIPv4(ip)) == Some(ip)
  {
    OctetRoundTrip(ip.a);
    OctetRoundTrip(ip.b);
    OctetRoundTrip(ip.c);
    OctetRoundTrip(ip.d);
    SplitJoin([RenderOctet(ip.a), RenderOctet(ip.b), RenderOctet(ip.c), RenderOctet(ip.d)], '.');
  }

  lemma OctetIff(s: string, n: nat)
    ensures ParseOctet(s) == Some(n) <==> n < 256 && s == RenderOctet(n)
  {
    if n < 256 {
      OctetRoundTrip(n);
    }
    if ParseOctet(s) == Some(n) {
      DigitsBack(s, n);
    }
  }

  lemma DigitBack(c: char)
    requires IsDigit(c)
    ensures DigitValue(c) < 10 && Digit(DigitValue(c)) == c && (DigitValue(c) == 0 <==> c == '0')
  {
  }

  lemma DecimalDigits(a: nat, b: nat, c: nat)
    requires a < 10 && b < 10 && c < 10
    ensures var n := 100 * a + 10 * b + c; n / 100 == a && n / 10 % 10 == b && n % 10 == c && (a == 0 ==> n / 10 == b)
  {
  }

  lemma DigitsBack(s: string, n: nat)
    requires ParseOctet(s) == Some(n)
    ensures n < 256 && s == RenderOctet(n)
  {
    hide Digit, DigitValue;
    assert forall k :: 0 <= k < |s| ==> IsDigit(s[k]);
    forall k | 0 <= k < |s|
      ensures DigitValue(s[k]) < 10 && Digit(DigitValue(s[k])) == s[k] && (DigitValue(s[k]) == 0 <==> s[k] == '0')
    {
      DigitBack(s[k]);
    }
    if |s| == 1 {
      assert s == [s[0]];
    } else if |s| == 2 {
      assert s == [s[0], s[1]];
      DecimalDigits(0, DigitValue(s[0]), DigitValue(s[1]));
    } else {
      assert s == [s[0], s[1], s[2]];
      DecimalDigits(DigitValue(s[0]), DigitValue(s[1]), DigitValue(s[2]));
    }
  }

  /** A dotted IPv4 literal is what rendering four bytes gives, nothing else. */
  lemma ParseIPv4Iff(s: string, ip: IPv4)
    ensures ParseIPv4(s) == Some(ip) <==> ip.Valid() && s == RenderIPv4(ip)
  {
    if ip.Valid() {
      IPv4RoundTrip(ip);
    }
    if ParseIPv4(s) == Some(ip) {
      var f := Split(s, '.');
      OctetIff(f[0], ip.a);
      OctetIff(f[1], ip.b);
      OctetIff(f[2], ip.c);
      OctetIff(f[3], ip.d);
      JoinSplit(s, '.');
      assert f == [f[0], f[1], f[2], f[3]];
    }
  }

  ghost predicate IsDotted(s: string) {
    exists ip: IPv4 :: ip.Valid() && s == RenderIPv4(ip)
  }

  /** One to four hexadecimal digits. */
  predicate IsGroup(s: string) {
    1 <= |s| <= 4 && forall k :: 0 <= k < |s| ==> IsHex(s[k])
  }

  ghost predicate AllGroups(pieces: seq<string>) {
    forall k :: 0 <= k < |pieces| ==> IsGroup(pieces[k])
  }

  /** Groups, the last of which may be a dotted IPv4 instead, standing for two. */
  ghost predicate Pieces(pieces: seq<string>, width: nat) {
    || (AllGroups(pieces) && width == |pieces|)
    || (pieces != [] && AllGroups(pieces[..|pieces| - 1]) && IsDotted(pieces[|pieces| - 1]) && width == |pieces| + 1)
  }

  function Colonned(pieces: seq<string>): string {
    if pieces == [] then "" else Join(pieces, ':')
  }

  /** Eight groups. */
  ghost predicate FullForm(s: string, pieces: seq<string>) {
    Pieces(pieces, 8) && s == Colonned(pieces)
  }

  /** At most seven groups around one `::`. */
  ghost predicate EllipsisForm(s: string, before: seq<string>, after: seq<string>, width: nat) {
    AllGroups(before) && Pieces(after, width) && |before| + width <= 7 &&
    s == Colonned(before) + "::" + Colonned(after)
  }

  /** IPv6, either one with a dotted IPv4 in place of the last two groups. */
  ghost predicate IPv6Literal(s: string) {
    || (exists pieces :: FullForm(s, pieces))
    || (exists before, after, width :: EllipsisForm(s, before, after, width))
  }

  /** An IP literal, by its surface. */
  ghost predicate IPLiteral(s: string) {
    IsDotted(s) || IPv6Literal(s)
  }

  lemma {:induction false} HexRunIs(x: string, y: string)
    requires (forall k :: 0 <= k < |x| ==> IsHex(x[k])) && (y == "" || !IsHex(y[0]))
    ensures HexRun(x + y) == |x|
  {
    if x == "" {
      assert x + y == y;
    } else {
      assert (x + y)[1..] == x[1..] + y;
      HexRunIs(x[1..], y);
    }
  }

  lemma OctetDigits(n: nat)
    requires n < 256
    ensures 1 <= |RenderOctet(n)| <= 3 && forall k :: 0 <= k < |RenderOctet(n)| ==> IsDigit(RenderOctet(n)[k])
  {
    DigitRoundTrip(n / 100);
    DigitRoundTrip(n / 10 % 10);
    DigitRoundTrip(n % 10);
  }

  /** A dotted IPv4 starts with one to three digits and a dot. */
  lemma DottedHead(s: string)
    requires IsDotted(s)
    ensures ParseIPv4(s).Some? && 1 <= HexRun(s) <= 3 && HexRun(s) < |s| && s[HexRun(s)] == '.'
  {
    hide ParseIPv4, HexRun, RenderOctet, RenderIPv4;
    var ip: IPv4 :| ip.Valid() && s == RenderIPv4(ip);
    ParseIPv4Iff(s, ip);
    var rest := RenderedHead(ip);
    OctetDigits(ip.a);
    HexRunIs(RenderOctet(ip.a), rest);
  }

  lemma RenderedHead(ip: IPv4) returns (rest: string)
    requires ip.Valid()
    ensures RenderIPv4(ip) == RenderOctet(ip.a) + rest && rest != "" && rest[0] == '.'
  {
    hide RenderOctet, Join;
    var tail := [RenderOctet(ip.b), RenderOctet(ip.c), RenderOctet(ip.d)];
    JoinCons(RenderOctet(ip.a), tail, '.');
    assert [RenderOctet(ip.a)] + tail == [RenderOctet(ip.a), tail[0], tail[1], tail[2]];
    rest := "." + Join(tail, '.');
  }

  lemma DottedIff(s: string)
    ensures ParseIPv4(s).Some? <==> IsDotted(s)
  {
    if ParseIPv4(s).Some? {
      ParseIPv4Iff(s, ParseIPv4(s).value);
    }
    if IsDotted(s) {
      DottedHead(s);
    }
  }

  lemma PiecesCons(head: string, pieces: seq<string>, width: nat)
    requires IsGroup(head) && Pieces(pieces, width)
    ensures Pieces([head] + pieces, width + 1)
  {
    var all := [head] + pieces;
    if !AllGroups(pieces) {
      assert all[..|all| - 1] == [head] + pieces[..|pieces| - 1];
    }
  }

  lemma PiecesTail(pieces: seq<string>, width: nat)
    requires |pieces| > 1 && Pieces(pieces, width)
    ensures IsGroup(pieces[0]) && width > 1 && Pieces(pieces[1..], width - 1)
  {
    if !AllGroups(pieces) {
      assert pieces[..|pieces| - 1][0] == pieces[0];
      assert pieces[1..][..|pieces| - 2] == pieces[..|pieces| - 1][1..];
    }
  }

  /** Pieces start with a hexadecimal digit. */
  lemma PiecesHead(pieces: seq<string>, width: nat)
    requires pieces != [] && Pieces(pieces, width)
    ensures Colonned(pieces) != "" && IsHex(Colonned(pieces)[0]) && width > 0
  {
    if |pieces| > 1 {
      PiecesTail(pieces, width);
    } else if !AllGroups(pieces) {
      DottedHead(pieces[0]);
    }
  }

  /** One group of the loop, and what may follow it. */
  lemma GroupStep(head: string, tail: string, g: nat, ellipsis: bool)
    requires IsGroup(head) && g <= 7 && (tail == "" || tail[0] == ':')
    ensures V6Groups(head + tail, 2 * g, ellipsis) <==>
            if tail == "" then V6Complete(2 * g + 2, ellipsis)
            else |tail| > 1 &&
                 if tail[1] != ':' then V6Groups(tail[1..], 2 * g + 2, ellipsis)
                 else !ellipsis && if tail == "::" then g < 7 else V6Groups(tail[2..], 2 * g + 2, true)
  {
    var s := head + tail;
    HexRunIs(head, tail);
    assert |tail| > 0 ==> s[|head| + 1..] == tail[1..];
    assert |tail| > 1 ==> s[|head| + 2..] == tail[2..] && s[|head| + 1] == tail[1];
  }

  lemma ColonnedCons(head: string, pieces: seq<string>)
    requires pieces != []
    ensures Colonned([head] + pieces) == head + ":" + Colonned(pieces)
  {
    JoinCons(head, pieces, ':');
  }

  /** The first group, or a dotted IPv4 that fills what is left. */
  lemma V6Head(s: string, g: nat, ellipsis: bool) returns (head: string, tail: string)
    requires g <= 7 && V6Groups(s, 2 * g, ellipsis)
    ensures IsGroup(head) && s == head + tail
    ensures tail != "" && tail[0] != ':' ==> IsDotted(s) && if ellipsis then g + 2 <= 7 else g + 2 == 8
  {
    hide ParseIPv4, HexRun, IsDotted;
    var off := HexRun(s);
    head, tail := s[..off], s[off..];
    if off < |s| && s[off] == '.' {
      DottedIff(s);
    }
  }

  lemma OnePiece(s: string)
    ensures Colonned([s]) == s && (IsGroup(s) ==> Pieces([s], 1)) && (IsDotted(s) ==> Pieces([s], 2))
  {
    assert [s][..0] == [];
  }

  /** What the group loop accepts, read back as pieces. */
  lemma {:induction false} V6Reads(s: string, g: nat, ellipsis: bool)
    returns (before: seq<string>, after: seq<string>, width: nat)
    requires g <= 7 && V6Groups(s, 2 * g, ellipsis)
    ensures AllGroups(before) && Pieces(after, width)
    ensures before == [] ==> after != [] && s == Colonned(after)
    ensures before == [] ==> if ellipsis then g + width <= 7 else g + width == 8
    ensures before != [] ==> !ellipsis && s == Colonned(before) + "::" + Colonned(after) && g + |before| + width <= 7
    decreases 8 - g
  {
    hide V6Groups, Pieces, IsGroup, IsDotted, Colonned;
    var head, tail := V6Head(s, g, ellipsis);
    before, after, width := [], [s], 2;
    OnePiece(s);
    if tail == "" || tail[0] == ':' {
      GroupStep(head, tail, g, ellipsis);
      if tail == "" {
        assert s == head;
        width := 1;
      } else if tail[1] != ':' {
        NotPast(tail[1..], 2 * g + 2, ellipsis);
        before, after, width := V6Reads(tail[1..], g + 1, ellipsis);
        assert s == head + ":" + tail[1..];
        if before == [] {
          PiecesCons(head, after, width);
          ColonnedCons(head, after);
          after, width := [head] + after, width + 1;
        } else {
          ColonnedCons(head, before);
          before := [head] + before;
        }
      } else {
        OnePiece(head);
        before, after, width := [head], [], 0;
        NoPieces();
        if tail != "::" {
          NotPast(tail[2..], 2 * g + 2, true);
          var none;
          none, after, width := V6Reads(tail[2..], g + 1, true);
        }
        assert s == head + "::" + tail[2..];
      }
    }
  }

  lemma NoPieces()
    ensures Pieces([], 0) && Colonned([]) == ""
  {
  }

  /** After eight groups nothing more is read. */
  lemma NotPast(s: string, bytes: nat, ellipsis: bool)
    requires bytes <= 16 && s != "" && V6Groups(s, bytes, ellipsis)
    ensures bytes < 16
  {
  }

  lemma V6AcceptsLast(piece: string, width: nat, g: nat, ellipsis: bool)
    requires Pieces([piece], width) && if ellipsis then g + width <= 7 else g + width == 8
    ensures V6Groups(piece, 2 * g, ellipsis)
  {
    if IsGroup(piece) && width == 1 {
      GroupStep(piece, "", g, ellipsis);
      assert piece + "" == piece;
    } else {
      assert IsDotted([piece][0]);
      DottedHead(piece);
    }
  }

  lemma {:induction false} V6Accepts(pieces: seq<string>, width: nat, g: nat, ellipsis: bool)
    requires pieces != [] && Pieces(pieces, width)
    requires if ellipsis then g + width <= 7 else g + width == 8
    ensures V6Groups(Colonned(pieces), 2 * g, ellipsis)
  {
    hide V6Groups, Pieces, IsGroup, Colonned;
    var head, rest := pieces[0], pieces[1..];
    assert pieces == [head] + rest;
    if rest == [] {
      assert pieces == [head];
      OnePiece(head);
      V6AcceptsLast(head, width, g, ellipsis);
    } else {
      PiecesTail(pieces, width);
      V6Accepts(rest, width - 1, g + 1, ellipsis);
      assert Colonned(pieces) + "" == Colonned(pieces) && Colonned(rest) + "" == Colonned(rest);
      V6Continues(head, rest, width - 1, "", g, ellipsis);
    }
  }

  /** A group in front of what is accepted is accepted. */
  lemma V6Continues(head: string, rest: seq<string>, width: nat, end: string, g: nat, ellipsis: bool)
    requires IsGroup(head) && rest != [] && Pieces(rest, width) && g < 7
    requires V6Groups(Colonned(rest) + end, 2 * g + 2, ellipsis)
    ensures V6Groups(Colonned([head] + rest) + end, 2 * g, ellipsis)
  {
    hide V6Groups, Pieces, IsGroup, Colonned;
    PiecesHead(rest, width);
    ColonnedCons(head, rest);
    var tail := ":" + (Colonned(rest) + end);
    assert Colonned([head] + rest) + end == head + tail && tail[1..] == Colonned(rest) + end;
    GroupStep(head, tail, g, ellipsis);
  }

  lemma {:induction false} V6AcceptsEllipsis(before: seq<string>, after: seq<string>, width: nat, g: nat)
    requires before != [] && AllGroups(before) && Pieces(after, width) && g + |before| + width <= 7
    ensures V6Groups(Colonned(before) + "::" + Colonned(after), 2 * g, false)
  {
    hide V6Groups, Pieces, IsGroup, Colonned;
    var head, rest, end := before[0], before[1..], "::" + Colonned(after);
    assert before == [head] + rest;
    assert Colonned(before) + "::" + Colonned(after) == Colonned(before) + end;
    if rest == [] {
      assert before == [head];
      OnePiece(head);
      assert end[2..] == Colonned(after);
      GroupStep(head, end, g, false);
      if after != [] {
        PiecesHead(after, width);
        V6Accepts(after, width, g + 1, true);
      } else {
        NoPieces();
      }
    } else {
      V6AcceptsEllipsis(rest, after, width, g + 1);
      assert Colonned(rest) + "::" + Colonned(after) == Colonned(rest) + end;
      GroupsArePieces(rest);
      V6Continues(head, rest, |rest|, end, g, false);
    }
  }

  lemma GroupsArePieces(pieces: seq<string>)
    requires AllGroups(pieces)
    ensures Pieces(pieces, |pieces|)
  {
  }

  lemma {:induction false} NoPercent(pieces: seq<string>, width: nat)
    requires Pieces(pieces, width)
    ensures '%' !in Colonned(pieces)
  {
    if |pieces| > 1 {
      PiecesTail(pieces, width);
      NoPercent(pieces[1..], width - 1);
    } else if pieces != [] && !AllGroups(pieces) {
      DottedIff(pieces[0]);
      if '%' in pieces[0] { IPv4Chars(pieces[0], '%'); }
    }
  }

  lemma FullAccepted(s: string, pieces: seq<string>)
    requires FullForm(s, pieces)
    ensures IsIPv6(s)
  {
    hide V6Groups, Pieces, Colonned;
    NoPieces();
    NoPercent(pieces, 8);
    PiecesFull(pieces);
    PiecesHead(pieces, 8);
    V6Accepts(pieces, 8, 0, false);
  }

  lemma PiecesFull(pieces: seq<string>)
    requires Pieces(pieces, 8)
    ensures pieces != []
  {
  }

  lemma EllipsisAccepted(s: string, before: seq<string>, after: seq<string>, width: nat)
    requires EllipsisForm(s, before, after, width)
    ensures IsIPv6(s)
  {
    hide V6Groups, Pieces, Colonned;
    GroupsArePieces(before);
    NoPercent(before, |before|);
    NoPercent(after, width);
    NoPieces();
    if before != [] {
      PiecesHead(before, |before|);
      assert s[0] == Colonned(before)[0];
      V6AcceptsEllipsis(before, after, width, 0);
    } else {
      assert s == "::" + Colonned(after) && s[2..] == Colonned(after);
      if after != [] {
        V6Accepts(after, width, 0, true);
      }
    }
  }

  lemma IPv6Read(s: string)
    requires IsIPv6(s)
    ensures IPv6Literal(s)
  {
    hide V6Groups, Pieces, Colonned;
    NoPieces();
    if s == "::" {
      assert EllipsisForm(s, [], [], 0);
    } else if "::" <= s {
      var before, after, width := V6Reads(s[2..], 0, true);
      assert EllipsisForm(s, [], after, width);
    } else {
      var before, after, width := V6Reads(s, 0, false);
      assert if before == [] then FullForm(s, after) else EllipsisForm(s, before, after, width);
    }
  }

  /** IPv6 literals without the group loop: eight groups, or at most seven around one `::`. */
  lemma IPv6Iff(s: string)
    ensures IsIPv6(s) <==> IPv6Literal(s)
  {
    hide IsIPv6, FullForm, EllipsisForm;
    if IsIPv6(s) {
      IPv6Read(s);
    } else if exists pieces :: FullForm(s, pieces) {
      var pieces :| FullForm(s, pieces);
      FullAccepted(s, pieces);
    } else if exists before, after, width :: EllipsisForm(s, before, after, width) {
      var before, after, width :| EllipsisForm(s, before, after, width);
      EllipsisAccepted(s, before, after, width);
    }
  }

  lemma {:induction false} FirstSpecialAfterHex(s: string)
    requires HexRun(s) < |s| && s[HexRun(s)] in ".:%"
    ensures FirstSpecial(s) == Some(s[HexRun(s)])
  {
    if HexRun(s) > 0 {
      FirstSpecialAfterHex(s[1..]);
    }
  }

  lemma IPv6HasColon(s: string)
    requires IsIPv6(s)
    ensures FirstSpecial(s) == Some(':')
  {
    if !("::" <= s) {
      FirstSpecialAfterHex(s);
    }
  }

  /** net.ParseIP accepts the IP literals and nothing else. */
  lemma IsIPIff(s: string)
    ensures IsIP(s) <==> IPLiteral(s)
  {
    IPv6Iff(s);
    DottedIff(s);
    if IsDotted(s) {
      DottedHead(s);
      FirstSpecialAfterHex(s);
    }
    if IsIPv6(s) {
      IPv6HasColon(s);
    }
  }

  // ----- facts about IP literals -----

  function Colons(s: string): nat {
    multiset(s)[':']
  }

  lemma ColonsAppend(a: string, b: string)
    ensures Colons(a + b) == Colons(a) + Colons(b)
  {
  }

  /** Every character but the separator ends up in some piece. */
  lemma {:induction false} SplitCharsIn(s: string, sep: char, c: char) returns (piece: string)
    requires c in s && c != sep
    ensures piece in Split(s, sep) && c in piece
    decreases |s|
  {
    var i := IndexOf(s, sep);
    if i < 0 {
      piece := s;
    } else {
      var a, b := s[..i], s[i + 1..];
      assert s == a + [sep] + b;
      if c in a {
        piece := a;
      } else {
        piece := SplitCharsIn(b, sep, c);
      }
    }
  }

  lemma IPv4Chars(s: string, c: char)
    requires ParseIPv4(s).Some? && c in s
    ensures c == '.' || IsDigit(c)
  {
    if c != '.' {
      var piece := SplitCharsIn(s, '.', c);
      assert ParseOctet(piece).Some?;
    }
  }

  lemma ColonsAround(a: string, b: string)
    ensures Colons(a + ":" + b) == Colons(a) + 1 + Colons(b)
  {
    ColonsAppend(a + ":", b);
    ColonsAppend(a, ":");
  }

  /** With fewer than six groups in and no `::` yet, a group is followed by a colon and more. */
  lemma V6GroupFollowed(s: string, bytes: nat) returns (head: string, rest: string)
    requires bytes <= 10 && V6Groups(s, bytes, false)
    ensures s == head + ":" + rest && rest != ""
    ensures rest[0] == ':' || V6Groups(rest, bytes + 2, false)
  {
    var off := HexRun(s);
    head, rest := s[..off], s[off + 1..];
  }

  lemma {:induction false} V6GroupsColons(s: string, bytes: nat)
    requires bytes <= 12 && V6Groups(s, bytes, false)
    ensures bytes <= 10 ==> Colons(s) >= 1
    ensures bytes <= 8 ==> Colons(s) >= 2
    decreases 16 - bytes
  {
    hide V6Groups, Colons;
    if bytes <= 10 {
      var head, rest := V6GroupFollowed(s, bytes);
      ColonsAround(head, rest);
      if rest[0] == ':' {
        assert rest == "" + ":" + rest[1..];
        ColonsAround("", rest[1..]);
      } else {
        V6GroupsColons(rest, bytes + 2);
      }
    }
  }

  /** A colon in an IP literal means IPv6, and IPv6 has at least two. */
  lemma IPColons(s: string)
    requires IsIP(s)
    ensures ':' in s ==> Colons(s) >= 2
    ensures ':' !in s ==> ParseIPv4(s).Some?
  {
    if FirstSpecial(s) == Some('.') {
      if ':' in s { IPv4Chars(s, ':'); }
    } else {
      if "::" <= s {
        assert s == "::" + s[2..];
      } else {
        V6GroupsColons(s, 0);
      }
      assert Colons(s) >= 2;
    }
  }

  // ----- properties of parseTarget -----

  lemma FallbackPort(target: string, h: string, p: string)
    requires PlainForm(target + ":" + DEFAULT_PORT, h, p) || BracketForm(target + ":" + DEFAULT_PORT, h, p)
    ensures p == DEFAULT_PORT
  {
    var s := target + ":" + DEFAULT_PORT;
    FormColon(s, h, p);
    CutAt(target, ":" + DEFAULT_PORT, s);
    CutAt(target + ":", DEFAULT_PORT, s);
    LastIndexOfIs(s, ':', |target|);
  }

  /** With the default port appended, a split can only give that port and the whole target. */
  lemma FallbackSplit(target: string)
    requires SplitHostPort(target + ":" + DEFAULT_PORT).Ok?
    ensures var (h, p) := SplitHostPort(target + ":" + DEFAULT_PORT).value;
            p == DEFAULT_PORT && Bracketless(h) &&
            ((target == h && ':' !in h) || target == "[" + h + "]")
  {
    hide SplitHostPort;
    var s := target + ":" + DEFAULT_PORT;
    SplitGivesForm(s);
    var (h, p) := SplitHostPort(s).value;
    FallbackPort(target, h, p);
    CutAt(target, ":" + DEFAULT_PORT, s);
    if BracketForm(s, h, p) {
      CutAt("[" + h + "]", ":" + p, s);
    } else {
      CutAt(h, ":" + p, s);
    }
  }

  lemma CutAt(a: string, b: string, s: string)
    requires s == a + b
    ensures s[..|a|] == a && s[|a|..] == b
  {
  }

  /** In either form, what follows the last colon is the port. */
  lemma FormColon(s: string, h: string, p: string)
    requires PlainForm(s, h, p) || BracketForm(s, h, p)
    ensures LastIndexOf(s, ':') == |s| - |p| - 1 && s[|s| - |p|..] == p
  {
    assert s[|s| - |p|..] == p;
    LastIndexOfIs(s, ':', |s| - |p| - 1);
  }

  lemma IPShape(target: string)
    requires IsIP(target)
    ensures target != "[]" && (':' !in target ==> Bracketless(target))
  {
    IPColons(target);
    if ':' !in target {
      if '[' in target { IPv4Chars(target, '['); }
      if ']' in target { IPv4Chars(target, ']'); }
    }
  }

  /** The shape every parsed target has. */
  lemma ParsedShape(target: string, h: string, p: string)
    requires ParseTarget(target) == Ok((h, p))
    ensures p != "" && CleanPort(p)
    ensures h == "" <==> target == "[]"
    ensures ':' !in h ==> Bracketless(h)
  {
    if IsIP(target) {
      IPShape(target);
    } else if SplitHostPort(target).Ok? {
      SplitGivesForm(target);
    } else {
      FallbackSplit(target);
    }
  }

  /** Parser normal form: joining the parsed parts and parsing again gives the same parts. */
  lemma ParseTargetNormalForm(target: string, h: string, p: string)
    requires ParseTarget(target) == Ok((h, p)) && h != "" && ':' !in h
    ensures ParseTarget(h + ":" + p) == Ok((h, p))
  {
    ParsedShape(target, h, p);
    var s := h + ":" + p;
    assert Colons(s) == 1 by {
      ColonsAppend(h + ":", p);
      ColonsAppend(h, ":");
    }
    assert s[|h|] == ':';
    if IsIP(s) { IPColons(s); }
    PlainFormSplits(s, h, p);
  }

  ghost predicate HasPort(s: string) {
    exists h, p :: PlainForm(s, h, p) || BracketForm(s, h, p)
  }

  ghost predicate BareHost(s: string) {
    exists h :: Bracketless(h) && ((s == h && ':' !in h) || s == "[" + h + "]")
  }

  lemma SplitsIffHasPort(s: string)
    ensures SplitHostPort(s).Ok? <==> HasPort(s)
  {
    if SplitHostPort(s).Ok? {
      SplitGivesForm(s);
    }
    if HasPort(s) {
      var h, p :| PlainForm(s, h, p) || BracketForm(s, h, p);
      SplitHostPortIff(s, h, p);
    }
  }

  lemma FallbackIffBareHost(s: string)
    ensures SplitHostPort(s + ":" + DEFAULT_PORT).Ok? <==> BareHost(s)
  {
    if SplitHostPort(s + ":" + DEFAULT_PORT).Ok? {
      FallbackSplit(s);
    }
    if BareHost(s) {
      var h :| Bracketless(h) && ((s == h && ':' !in h) || s == "[" + h + "]");
      BareIff(s, h, "9000");
    }
  }

  /** Exactly which targets are refused, and so make the resolver's goroutine panic. */
  lemma ParseTargetRefusesIff(target: string)
    ensures ParseTarget(target).Err? <==>
            target == "" || (!IPLiteral(target) && !HasPort(target) && !BareHost(target))
    ensures ParseTarget(target).Err? ==>
              ParseTarget(target).error == if target == "" then MissingAddr else InvalidTarget(target)
  {
    hide SplitHostPort, IsIP, IPLiteral, HasPort, BareHost;
    IsIPIff(target);
    SplitsIffHasPort(target);
    FallbackIffBareHost(target);
  }

  /** Host and port, with the defaults for what is empty. */
  ghost predicate DenotesWithPort(target: string, h: string, p: string) {
    exists h0, p0 :: (PlainForm(target, h0, p0) || BracketForm(target, h0, p0))
                     && h == (if h0 == "" then "localhost" else h0)
                     && p == (if p0 == "" then "9000" else p0)
  }

  /** A host alone, bracketed or not, on the default port. */
  ghost predicate DenotesBare(target: string, h: string, p: string) {
    p == "9000" && Bracketless(h) && ((target == h && ':' !in h) || target == "[" + h + "]")
  }

  /** The three readings of a target. */
  ghost predicate Denotes(target: string, h: string, p: string) {
    target != "" &&
    if IPLiteral(target) then h == target && p == "9000"
    else DenotesWithPort(target, h, p) || DenotesBare(target, h, p)
  }

  lemma WithPortIff(target: string, h: string, p: string)
    ensures DenotesWithPort(target, h, p) <==>
            SplitHostPort(target).Ok? &&
            var (h0, p0) := SplitHostPort(target).value;
            h == (if h0 == "" then "localhost" else h0) && p == (if p0 == "" then "9000" else p0)
  {
    if SplitHostPort(target).Ok? {
      SplitGivesForm(target);
    }
    forall h0, p0 | PlainForm(target, h0, p0) || BracketForm(target, h0, p0)
      ensures SplitHostPort(target) == Ok((h0, p0))
    {
      SplitHostPortIff(target, h0, p0);
    }
  }

  lemma BareIff(target: string, h: string, p: string)
    ensures DenotesBare(target, h, p) <==> SplitHostPort(target + ":" + DEFAULT_PORT) == Ok((h, p))
  {
    hide SplitHostPort;
    var full := target + ":" + DEFAULT_PORT;
    if SplitHostPort(full).Ok? {
      FallbackSplit(target);
    }
    if DenotesBare(target, h, p) {
      if target == h && ':' !in h {
        PlainFormSplits(full, h, DEFAULT_PORT);
      } else {
        assert full == "[" + h + "]:" + DEFAULT_PORT;
        BracketFormSplits(full, h, DEFAULT_PORT);
      }
    }
  }

  lemma BareHasNoPort(target: string, h: string, p: string)
    requires DenotesBare(target, h, p)
    ensures SplitHostPort(target).Err?
  {
    if SplitHostPort(target).Ok? {
      SplitGivesForm(target);
      FormHasColon(target, SplitHostPort(target).value.0, SplitHostPort(target).value.1);
    }
  }

  /** parseTarget gives a host and a port exactly when the target denotes them. */
  lemma ParseTargetIff(target: string, h: string, p: string)
    ensures ParseTarget(target) == Ok((h, p)) <==> Denotes(target, h, p)
  {
    hide SplitHostPort, IsIP, IPLiteral, DenotesWithPort, DenotesBare;
    IsIPIff(target);
    if target != "" && !IsIP(target) {
      WithPortIff(target, h, p);
      BareIff(target, h, p);
      if DenotesBare(target, h, p) {
        BareHasNoPort(target, h, p);
      }
    }
  }

  /** A target with a port holds a colon and does not end in a bracket. */
  lemma FormHasColon(s: string, h: string, p: string)
    requires PlainForm(s, h, p) || BracketForm(s, h, p)
    ensures ':' in s && s[|s| - 1] != ']'
  {
    assert s[|s| - |p| - 1] == ':';
    assert s[|s| - 1] == if p == "" then ':' else p[|p| - 1];
  }

  // ----- rendering a DNS answer: ip.String() + ":" + port -----

  /** An unbracketed host rendered with a port splits back exactly when it holds no colon. */
  lemma RenderedSplitsBackIff(h: string, p: string)
    requires Bracketless(h) && CleanPort(p)
    ensures SplitHostPort(h + ":" + p) == Ok((h, p)) <==> ':' !in h
  {
    var s := h + ":" + p;
    SplitHostPortIff(s, h, p);
    assert s[0] == if h == "" then ':' else h[0];
  }
}
