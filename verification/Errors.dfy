/** Error obfuscation of the Connect server: server/connectrpc/error.go. */
module Errors {
  import opened Codes
  import opened Common

  const INTERNAL_ERROR_MESSAGE := "Unexpected error. Please try later."

  type Metadata = map<string, seq<string>>

  datatype ConnectError = ConnectError(code: nat, message: string, details: seq<string>, meta: Metadata)

  /**
   An error as errors.As walks it. `text` is what Error() prints, fixed when the error is made. A wrapper
   holds one error (fmt.Errorf with %w) or several (errors.Join, multierr).
   */
  datatype GoError =
    | Plain(text: string)
    | StatusErr(text: string, status: Status)
    | Connect(text: string, err: ConnectError)
    | Wrapper(text: string, wrapped: seq<GoError>)

  datatype Level = InfoLevel | ErrorLevel

  predicate Sensitive(code: nat) { code == UNKNOWN || code == INTERNAL }

  /** getLogSeverity. */
  function LogSeverity(err: ConnectError): Level {
    if Sensitive(err.code) then ErrorLevel else InfoLevel
  }

  // ----- net/http header fields -----

  predicate IsTokenChar(c: char) {
    'a' <= c <= 'z' || 'A' <= c <= 'Z' || '0' <= c <= '9' || c in "!#$%&'*+-.^_`|~"
  }

  function ToUpper(c: char): char {
    if 'a' <= c <= 'z' then 'A' + (c - 'a') else c
  }

  function ToLower(c: char): char {
    if 'A' <= c <= 'Z' then 'a' + (c - 'A') else c
  }

  predicate AllToken(s: string) {
    forall k :: 0 <= k < |s| ==> IsTokenChar(s[k])
  }

  function Capitalize(s: string, upper: bool): (r: string)
    ensures AllToken(s) ==> AllToken(r)
  {
    if s == "" then ""
    else
      var c := if upper then ToUpper(s[0]) else ToLower(s[0]);
      assert AllToken(s) ==> IsTokenChar(s[0]) && AllToken(s[1..]);
      [c] + Capitalize(s[1..], c == '-')
  }

  /** textproto.CanonicalMIMEHeaderKey: invalid names stay as they are. */
  function Canon(key: string): string {
    if AllToken(key) then Capitalize(key, true) else key
  }

  lemma {:induction false} CapitalizeTwice(s: string, upper: bool)
    ensures Capitalize(Capitalize(s, upper), upper) == Capitalize(s, upper)
  {
    if s != "" {
      var c := if upper then ToUpper(s[0]) else ToLower(s[0]);
      var rest := Capitalize(s[1..], c == '-');
      CapitalizeTwice(s[1..], c == '-');
      CaseTwice(s[0]);
      assert Capitalize(s, upper) == [c] + rest && ([c] + rest)[1..] == rest;
    }
  }

  /** Where a word of the name starts. */
  predicate StartsWord(key: string, k: nat)
    requires k < |key|
  {
    k == 0 || key[k - 1] == '-'
  }

  lemma {:induction false} CapitalizeAt(s: string, upper: bool, k: nat)
    requires k < |s|
    ensures |Capitalize(s, upper)| == |s|
    ensures Capitalize(s, upper)[k] == if (if k == 0 then upper else s[k - 1] == '-') then ToUpper(s[k]) else ToLower(s[k])
  {
    var c := if upper then ToUpper(s[0]) else ToLower(s[0]);
    if k > 0 {
      CapitalizeAt(s[1..], c == '-', k - 1);
    } else {
      CapitalizeLength(s, upper);
    }
  }

  lemma {:induction false} CapitalizeLength(s: string, upper: bool)
    ensures |Capitalize(s, upper)| == |s|
  {
    if s != "" {
      CapitalizeLength(s[1..], (if upper then ToUpper(s[0]) else ToLower(s[0])) == '-');
    }
  }

  /** The canonical form letter by letter: capitals start words, the rest is small; invalid names are kept. */
  lemma CanonIff(key: string, c: string)
    ensures Canon(key) == c <==>
            |c| == |key| &&
            if AllToken(key) then
              forall k :: 0 <= k < |key| ==> c[k] == if StartsWord(key, k) then ToUpper(key[k]) else ToLower(key[k])
            else c == key
  {
    CapitalizeLength(key, true);
    if AllToken(key) {
      forall k | 0 <= k < |key|
        ensures Canon(key)[k] == if StartsWord(key, k) then ToUpper(key[k]) else ToLower(key[k])
      {
        CapitalizeAt(key, true, k);
      }
    }
  }

  predicate SameUpToCase(a: string, b: string) {
    |a| == |b| && forall k :: 0 <= k < |a| ==> ToLower(a[k]) == ToLower(b[k])
  }

  /** Two names collide exactly when they are equal, or valid and equal up to case. */
  lemma CollideIff(a: string, b: string)
    ensures Canon(a) == Canon(b) <==> a == b || (AllToken(a) && AllToken(b) && SameUpToCase(a, b))
  {
    CanonIff(a, Canon(b));
    CanonIff(b, Canon(b));
    CaseFacts();
    if SameUpToCase(a, b) {
      forall k | 0 <= k < |a| ensures StartsWord(a, k) == StartsWord(b, k) {
        assert k > 0 ==> ToLower(a[k - 1]) == ToLower(b[k - 1]);
      }
    }
    if Canon(a) == Canon(b) {
      CapitalizeKeepsToken(a, true);
      CapitalizeKeepsToken(b, true);
    }
  }

  lemma CaseFacts()
    ensures forall c, d :: ToLower(c) == ToLower(d) <==> ToUpper(c) == ToUpper(d)
    ensures forall c :: ToLower(ToUpper(c)) == ToLower(c) && (ToLower(c) == '-' <==> c == '-')
  {
  }

  /** Changing case makes no name valid or invalid. */
  lemma {:induction false} CapitalizeKeepsToken(s: string, upper: bool)
    ensures AllToken(Capitalize(s, upper)) <==> AllToken(s)
  {
    if s != "" {
      var c := if upper then ToUpper(s[0]) else ToLower(s[0]);
      CapitalizeKeepsToken(s[1..], c == '-');
      assert Capitalize(s, upper) == [c] + Capitalize(s[1..], c == '-');
      assert IsTokenChar(c) <==> IsTokenChar(s[0]);
      AllTokenCons(c, Capitalize(s[1..], c == '-'));
      AllTokenCons(s[0], s[1..]);
      assert s == [s[0]] + s[1..];
    }
  }

  lemma AllTokenCons(c: char, s: string)
    ensures AllToken([c] + s) <==> IsTokenChar(c) && AllToken(s)
  {
    if AllToken([c] + s) {
      assert ([c] + s)[0] == c;
      forall k | 0 <= k < |s| ensures IsTokenChar(s[k]) {
        assert ([c] + s)[k + 1] == s[k];
      }
    }
  }

  lemma CaseTwice(c: char)
    ensures ToUpper(ToUpper(c)) == ToUpper(c) && ToLower(ToLower(c)) == ToLower(c)
  {
  }

  lemma CanonTwice(key: string)
    ensures Canon(Canon(key)) == Canon(key)
  {
    CapitalizeTwice(key, true);
  }

  /** The list stored under exactly this name. */
  function Lookup(m: Metadata, c: string): seq<string> {
    if c in m then m[c] else []
  }

  /** Header.Values. */
  function Values(m: Metadata, key: string): seq<string> { Lookup(m, Canon(key)) }

  /** Header.Add. */
  function Add(m: Metadata, key: string, value: string): Metadata {
    m[Canon(key) := Lookup(m, Canon(key)) + [value]]
  }

  function AddList(m: Metadata, key: string, values: seq<string>): Metadata {
    if values == [] then m
    else Add(AddList(m, key, values[..|values| - 1]), key, values[|values| - 1])
  }

  /** The copy loop over the keys in the given order; Go iterates over a map in any order. */
  function CopyInOrder(order: seq<string>, m: Metadata): Metadata
    requires forall k :: 0 <= k < |order| ==> order[k] in m
  {
    if order == [] then map[]
    else
      var key := order[|order| - 1];
      AddList(CopyInOrder(order[..|order| - 1], m), key, m[key])
  }

  ghost predicate IsOrder(order: seq<string>, m: Metadata) {
    && (forall k :: 0 <= k < |order| ==> order[k] in m)
    && (forall i, j :: 0 <= i < j < |order| ==> order[i] != order[j])
    && (forall key :: key in m ==> key in order)
  }

  ghost predicate Copies(m: Metadata, m': Metadata) {
    exists order :: IsOrder(order, m) && m' == CopyInOrder(order, m)
  }

  // ----- the obfuscation as a relation: every result the code can give -----

  ghost predicate ObfuscatesConnect(err: ConnectError, r: ConnectError) {
    && r.code == err.code
    && r.message == (if err.code == 2 || err.code == 13 then "Unexpected error. Please try later." else err.message)
    && r.details == err.details
    && Copies(err.meta, r.meta)
  }

  /** obfuscateConnectWebError. */
  method ObfuscateConnectWebError(err: ConnectError) returns (r: ConnectError)
    ensures ObfuscatesConnect(err, r)
  {
    var message := err.message;
    if err.code == UNKNOWN || err.code == INTERNAL {
      message := INTERNAL_ERROR_MESSAGE;
    }

    var details: seq<string> := [];
    for k := 0 to |err.details|
      invariant details == err.details[..k]
    {
      details := details + [err.details[k]];
    }

    var meta: Metadata := map[];
    var keys := err.meta.Keys;
    ghost var order: seq<string> := [];
    while keys != {}
      invariant keys <= err.meta.Keys
      invariant forall k :: 0 <= k < |order| ==> order[k] in err.meta && order[k] !in keys
      invariant forall i, j :: 0 <= i < j < |order| ==> order[i] != order[j]
      invariant forall key :: key in err.meta && key !in keys ==> key in order
      invariant meta == CopyInOrder(order, err.meta)
    {
      var key :| key in keys;
      var values := err.meta[key];
      for j := 0 to |values|
        invariant meta == AddList(CopyInOrder(order, err.meta), key, values[..j])
      {
        assert values[..j + 1][..j] == values[..j];
        meta := Add(meta, key, values[j]);
      }
      assert values[..|values|] == values && (order + [key])[..|order|] == order;
      order := order + [key];
      keys := keys - {key};
    }
    assert IsOrder(order, err.meta);
    r := ConnectError(err.code, message, details, meta);
  }

  predicate IsConnect(e: GoError) { e.Connect? }

  predicate IsStatus(e: GoError) { e.StatusErr? }

  /** errors.As: the first error of the wanted kind, outermost and leftmost. */
  function As(e: GoError, kind: GoError -> bool): Option<GoError> {
    if kind(e) then Some(e)
    else if e.Wrapper? then AsAny(e.wrapped, kind)
    else None
  }

  function AsAny(es: seq<GoError>, kind: GoError -> bool): Option<GoError> {
    if es == [] then None
    else
      var first := As(es[0], kind);
      if first.Some? then first else AsAny(es[1..], kind)
  }

  lemma {:induction false} AsIsKind(e: GoError, kind: GoError -> bool)
    ensures As(e, kind).Some? ==> kind(As(e, kind).value)
  {
    if e.Wrapper? {
      AsAnyIsKind(e.wrapped, kind);
    }
  }

  lemma {:induction false} AsAnyIsKind(es: seq<GoError>, kind: GoError -> bool)
    ensures AsAny(es, kind).Some? ==> kind(AsAny(es, kind).value)
  {
    if es != [] {
      AsIsKind(es[0], kind);
      AsAnyIsKind(es[1..], kind);
    }
  }

  function FindConnect(e: GoError): Option<ConnectError> {
    match As(e, IsConnect)
    case Some(Connect(_, err)) => Some(err)
    case _ => None
  }

  function FindStatus(e: GoError): Option<Status> {
    match As(e, IsStatus)
    case Some(StatusErr(_, status)) => Some(status)
    case _ => None
  }

  /** status.FromError: a wrapped status keeps its code and takes the text of the whole error. */
  function FromError(e: GoError): Status {
    if e.StatusErr? then e.status
    else
      match FindStatus(e)
      case Some(status) => Status(status.code, e.text)
      case None => Status(UNKNOWN, e.text)
  }

  /** The results obfuscateError can give when no mapper is set. */
  ghost predicate Obfuscates(e: GoError, r: ConnectError) {
    match FindConnect(e)
    case Some(err) => ObfuscatesConnect(err, r)
    case None =>
      var status := FromError(e);
      r == ConnectError(status.code, if Sensitive(status.code) then INTERNAL_ERROR_MESSAGE else status.message, [], map[])
  }

  /** An error mapper; its result may be nil. */
  type Mapper = GoError -> Option<GoError>

  /** obfuscateError; a nil error, which only a mapper gives, has the status OK without a message. */
  method ObfuscateError(mapper: Option<Mapper>, e: GoError) returns (r: ConnectError)
    ensures mapper == None ==> Means(e, r)
    ensures mapper.Some? ==> match mapper.value(e)
                             case Some(mapped) => Means(mapped, r)
                             case None => r == ConnectError(0, "", [], map[])
  {
    hide Means;
    var mapped := Some(e);
    if mapper.Some? {
      mapped := mapper.value(e);
    }
    var connectErr := if mapped.Some? then FindConnect(mapped.value) else None;
    if connectErr.Some? {
      r := ObfuscateConnectWebError(connectErr.value);
      ObfuscatesIff(mapped.value, r);
      return;
    }
    var status := if mapped.Some? then FromError(mapped.value) else Status(OK, "");
    var message := status.message;
    if status.code == INTERNAL || status.code == UNKNOWN {
      message := INTERNAL_ERROR_MESSAGE;
    }
    r := ConnectError(status.code, message, [], map[]);
    if mapped.Some? {
      ObfuscatesIff(mapped.value, r);
    }
  }

  // ----- what the copy loop leaves -----

  /** All values stored under names with canonical form c, in the order of the loop. */
  function Gathered(order: seq<string>, m: Metadata, c: string): seq<string>
    requires forall k :: 0 <= k < |order| ==> order[k] in m
  {
    if order == [] then []
    else
      var key := order[|order| - 1];
      Gathered(order[..|order| - 1], m, c) + if Canon(key) == c then m[key] else []
  }

  ghost predicate NoEmptyLists(m: Metadata) {
    forall c :: c in m ==> m[c] != []
  }

  lemma {:induction false} AddListLookup(m: Metadata, key: string, values: seq<string>, c: string)
    requires NoEmptyLists(m)
    ensures Lookup(AddList(m, key, values), c) == Lookup(m, c) + if Canon(key) == c then values else []
    ensures NoEmptyLists(AddList(m, key, values))
  {
    if values != [] {
      hide Canon, Add, Lookup;
      var front, last := values[..|values| - 1], values[|values| - 1];
      AddListLookup(m, key, front, c);
      assert values == front + [last];
      AddLookup(AddList(m, key, front), key, last, c);
    }
  }

  lemma AddLookup(m: Metadata, key: string, value: string, c: string)
    requires NoEmptyLists(m)
    ensures Lookup(Add(m, key, value), c) == Lookup(m, c) + if Canon(key) == c then [value] else []
    ensures NoEmptyLists(Add(m, key, value))
  {
    hide Canon;
  }

  lemma {:induction false} CopyGathers(order: seq<string>, m: Metadata, c: string)
    requires forall k :: 0 <= k < |order| ==> order[k] in m
    ensures Lookup(CopyInOrder(order, m), c) == Gathered(order, m, c)
    ensures NoEmptyLists(CopyInOrder(order, m))
  {
    if order != [] {
      var front, key := order[..|order| - 1], order[|order| - 1];
      CopyGathers(front, m, c);
      AddListLookup(CopyInOrder(front, m), key, m[key], c);
    }
  }

  /** No other name in the order shares key's canonical form, except with nothing to add. */
  ghost predicate Alone(order: seq<string>, m: Metadata, key: string) {
    forall k :: 0 <= k < |order| && order[k] in m && order[k] != key && Canon(order[k]) == Canon(key) ==> m[order[k]] == []
  }

  lemma {:induction false} GatheredAlone(order: seq<string>, m: Metadata, key: string)
    requires forall k :: 0 <= k < |order| ==> order[k] in m
    requires forall i, j :: 0 <= i < j < |order| ==> order[i] != order[j]
    requires Alone(order, m, key)
    ensures Gathered(order, m, Canon(key)) == if key in order then m[key] else []
  {
    if order != [] {
      var front, last := order[..|order| - 1], order[|order| - 1];
      assert order == front + [last];
      assert Alone(front, m, key);
      GatheredAlone(front, m, key);
      if last == key {
        assert key !in front;
      } else if Canon(last) == Canon(key) {
        assert m[last] == [];
      }
    }
  }

  lemma {:induction false} GatheredContains(order: seq<string>, m: Metadata, a: string, b: string)
    requires forall k :: 0 <= k < |order| ==> order[k] in m
    requires a in order && b in order && a != b && Canon(a) == Canon(b)
    ensures |Gathered(order, m, Canon(a))| >= |m[a]| + |m[b]|
  {
    var front, key := order[..|order| - 1], order[|order| - 1];
    assert order == front + [key];
    if key == a && b in front {
      GatheredContainsOne(front, m, b);
    } else if key == b && a in front {
      GatheredContainsOne(front, m, a);
    } else {
      GatheredContains(front, m, a, b);
    }
  }

  lemma {:induction false} GatheredContainsOne(order: seq<string>, m: Metadata, a: string)
    requires forall k :: 0 <= k < |order| ==> order[k] in m
    requires a in order
    ensures |Gathered(order, m, Canon(a))| >= |m[a]|
  {
    var front, key := order[..|order| - 1], order[|order| - 1];
    assert order == front + [key];
    if key != a {
      GatheredContainsOne(front, m, a);
    }
  }

  /** Names that differ only in case never both carry values. */
  ghost predicate NoCollisions(m: Metadata) {
    forall a, b :: a in m && b in m && a != b && Canon(a) == Canon(b) ==> m[a] == [] && m[b] == []
  }

  /** Every metadata list comes through unchanged exactly when no two names collide. */
  lemma MetadataKeptIff(m: Metadata, m': Metadata)
    requires Copies(m, m')
    ensures (forall key :: key in m ==> Values(m', key) == m[key]) <==> NoCollisions(m)
  {
    var order :| IsOrder(order, m) && m' == CopyInOrder(order, m);
    if NoCollisions(m) {
      forall key | key in m ensures Values(m', key) == m[key] {
        CopyGathers(order, m, Canon(key));
        GatheredAlone(order, m, key);
      }
    }
    if forall key :: key in m ==> Values(m', key) == m[key] {
      forall a, b | a in m && b in m && a != b && Canon(a) == Canon(b) ensures m[a] == [] && m[b] == [] {
        CopyGathers(order, m, Canon(a));
        GatheredContains(order, m, a, b);
        assert Values(m', a) == m[a] && Values(m', b) == m[b];
      }
    }
  }

  /** Canonical names without empty lists: what every copy yields, and what copying leaves alone. */
  ghost predicate Clean(m: Metadata) {
    NoEmptyLists(m) && forall c :: c in m ==> Canon(c) == c
  }

  lemma {:induction false} GatheredCanonical(order: seq<string>, m: Metadata, c: string)
    requires forall k :: 0 <= k < |order| ==> order[k] in m
    requires Gathered(order, m, c) != []
    ensures Canon(c) == c
  {
    var key := order[|order| - 1];
    if Canon(key) == c {
      CanonTwice(key);
    } else {
      GatheredCanonical(order[..|order| - 1], m, c);
    }
  }

  lemma CopiesAreClean(m: Metadata, m': Metadata)
    requires Copies(m, m')
    ensures Clean(m')
  {
    var order :| IsOrder(order, m) && m' == CopyInOrder(order, m);
    CopyGathers(order, m, "");
    forall c | c in m' ensures Canon(c) == c {
      CopyGathers(order, m, c);
      GatheredCanonical(order, m, c);
    }
  }

  lemma CleanIsFixed(m: Metadata, m': Metadata)
    requires Clean(m) && Copies(m, m')
    ensures m' == m
  {
    var order :| IsOrder(order, m) && m' == CopyInOrder(order, m);
    CopiesAreClean(m, m');
    forall c ensures Lookup(m', c) == Lookup(m, c) {
      CopyGathers(order, m, c);
      if Canon(c) == c {
        assert Alone(order, m, c);
        GatheredAlone(order, m, c);
      } else if Gathered(order, m, c) != [] {
        GatheredCanonical(order, m, c);
      }
    }
    assert forall c :: c in m <==> Lookup(m, c) != [];
    assert forall c :: c in m' <==> Lookup(m', c) != [];
    forall c | c in m ensures c in m' && m'[c] == m[c] {
      assert Lookup(m', c) == Lookup(m, c);
    }
    forall c | c in m' ensures c in m {
      assert Lookup(m', c) == Lookup(m, c);
    }
  }

  // ----- properties of the obfuscation -----

  /** Normal form: obfuscating a result again gives the same result, whatever the names in the metadata. */
  lemma ObfuscationIsIdempotent(e: GoError, r: ConnectError, text: string, r': ConnectError)
    requires Obfuscates(e, r) && Obfuscates(Connect(text, r), r')
    ensures r' == r
  {
    if FindConnect(e).Some? {
      CopiesAreClean(FindConnect(e).value.meta, r.meta);
    }
    CleanIsFixed(r.meta, r'.meta);
  }

  /** For canonical names the result is unique: the loop's order does not show. */
  lemma CanonicalResultIsUnique(err: ConnectError, r1: ConnectError, r2: ConnectError)
    requires forall key :: key in err.meta ==> Canon(key) == key
    requires ObfuscatesConnect(err, r1) && ObfuscatesConnect(err, r2)
    ensures r1 == r2
    ensures r1.meta == map key | key in err.meta && err.meta[key] != [] :: err.meta[key]
  {
    CanonicalCopy(err.meta, r1.meta);
    CanonicalCopy(err.meta, r2.meta);
  }

  lemma CanonicalCopy(m: Metadata, m': Metadata)
    requires Copies(m, m') && forall key :: key in m ==> Canon(key) == key
    ensures m' == map key | key in m && m[key] != [] :: m[key]
  {
    var order :| IsOrder(order, m) && m' == CopyInOrder(order, m);
    CopiesAreClean(m, m');
    MetadataKeptIff(m, m');
    forall c | c in m' ensures c in m && m'[c] == m[c] {
      CopyGathers(order, m, c);
      GatheredAlone(order, m, c);
    }
    forall key | key in m && m[key] != [] ensures key in m' {
      assert Values(m', key) == m[key];
    }
  }

  // ----- what is found where in the tree -----

  /** The way down to a node: which of the wrapped errors, wrapper by wrapper. */
  type Path = seq<nat>

  function At(e: GoError, path: Path): Option<GoError>
    decreases |path|
  {
    if path == [] then Some(e)
    else if e.Wrapper? && path[0] < |e.wrapped| then At(e.wrapped[path[0]], path[1..])
    else None
  }

  /** Outermost first, then leftmost. */
  predicate Before(p: Path, q: Path) {
    q != [] && (p == [] || p[0] < q[0] || (p[0] == q[0] && Before(p[1..], q[1..])))
  }

  ghost predicate KindAt(e: GoError, path: Path, kind: GoError -> bool) {
    At(e, path).Some? && kind(At(e, path).value)
  }

  /** The first error of a kind by position. */
  ghost predicate FirstAt(e: GoError, path: Path, kind: GoError -> bool) {
    KindAt(e, path, kind) && forall q :: Before(q, path) ==> !KindAt(e, q, kind)
  }

  /** errors.As finds the first position of the kind, and fails exactly when there is none. */
  lemma {:induction false} AsMeaning(e: GoError, kind: GoError -> bool) returns (path: Path)
    ensures match As(e, kind)
            case None => forall q :: !KindAt(e, q, kind)
            case Some(found) => FirstAt(e, path, kind) && At(e, path) == Some(found)
    decreases e, 1, 0
  {
    path := [];
    if !kind(e) && e.Wrapper? {
      path := AsAnyMeaning(e, 0, kind);
      assert e.wrapped[0..] == e.wrapped;
    }
  }

  /** The search among a wrapper's errors from the k-th on. */
  lemma {:induction false} AsAnyMeaning(e: GoError, k: nat, kind: GoError -> bool) returns (path: Path)
    requires e.Wrapper? && k <= |e.wrapped|
    ensures match AsAny(e.wrapped[k..], kind)
            case None => forall q :: q != [] && q[0] >= k ==> !KindAt(e, q, kind)
            case Some(found) =>
              path != [] && path[0] >= k && At(e, path) == Some(found) && kind(found) &&
              forall q :: q != [] && q[0] >= k && Before(q, path) ==> !KindAt(e, q, kind)
    decreases e, 0, |e.wrapped| - k
  {
    path := [];
    if k < |e.wrapped| {
      assert e.wrapped[k..][1..] == e.wrapped[k + 1..];
      var first := AsMeaning(e.wrapped[k], kind);
      var later := AsAnyMeaning(e, k + 1, kind);
      path := if As(e.wrapped[k], kind).Some? then [k] + first else later;
      forall q: Path | q != [] && q[0] == k ensures KindAt(e, q, kind) <==> KindAt(e.wrapped[k], q[1..], kind) {
      }
    }
  }

  lemma {:induction false} BeforeIsTotal(p: Path, q: Path)
    ensures p == q || Before(p, q) || Before(q, p)
  {
    if p != [] && q != [] && p[0] == q[0] {
      BeforeIsTotal(p[1..], q[1..]);
      assert p == [p[0]] + p[1..] && q == [q[0]] + q[1..];
    }
  }

  lemma FirstAtIsUnique(e: GoError, kind: GoError -> bool, p: Path, q: Path)
    requires FirstAt(e, p, kind) && FirstAt(e, q, kind)
    ensures p == q
  {
    BeforeIsTotal(p, q);
  }

  /** The result for an error without Connect errors: code and message of its first status. */
  ghost predicate Converted(e: GoError, r: ConnectError) {
    && r.details == [] && r.meta == map[]
    && (r.code == 2 || r.code == 13 ==> r.message == "Unexpected error. Please try later.")
    && if forall q :: !KindAt(e, q, IsStatus) then r.code == 2
       else
         exists path :: FirstAt(e, path, IsStatus) &&
           var status := At(e, path).value.status;
           r.code == status.code &&
           (status.code != 2 && status.code != 13 ==> r.message == if path == [] then status.message else e.text)
  }

  ghost predicate Means(e: GoError, r: ConnectError) {
    if forall q :: !KindAt(e, q, IsConnect) then Converted(e, r)
    else exists path :: FirstAt(e, path, IsConnect) && ObfuscatesConnect(At(e, path).value.err, r)
  }

  /**
   Exactly the results for every tree of errors, by position: the first Connect error decides, or else the
   first status, whose own message shows when it stands at the root and the whole text when it is wrapped.
   */
  lemma ObfuscatesIff(e: GoError, r: ConnectError)
    ensures Obfuscates(e, r) <==> Means(e, r)
  {
    hide At, As, FirstAt, KindAt, Converted, Obfuscates;
    var path := AsMeaning(e, IsConnect);
    AsIsKind(e, IsConnect);
    ConvertedIff(e, r);
    if FindConnect(e) == None {
      ObfuscatesStatus(e, r);
    } else {
      ObfuscatesFound(e, r);
      forall q | FirstAt(e, q, IsConnect) ensures q == path {
        FirstAtIsUnique(e, IsConnect, path, q);
      }
    }
  }

  lemma ObfuscatesFound(e: GoError, r: ConnectError)
    requires FindConnect(e).Some?
    ensures Obfuscates(e, r) <==> ObfuscatesConnect(FindConnect(e).value, r)
  {
  }

  ghost predicate ConvertedStatus(e: GoError, r: ConnectError) {
    var status := FromError(e);
    r == ConnectError(status.code, if Sensitive(status.code) then INTERNAL_ERROR_MESSAGE else status.message, [], map[])
  }

  lemma ObfuscatesStatus(e: GoError, r: ConnectError)
    requires FindConnect(e) == None
    ensures Obfuscates(e, r) <==> ConvertedStatus(e, r)
  {
  }

  lemma ConvertedIff(e: GoError, r: ConnectError)
    ensures Converted(e, r) <==> ConvertedStatus(e, r)
  {
    hide FirstAt, KindAt;
    var path := AsMeaning(e, IsStatus);
    AsIsKind(e, IsStatus);
    assert path == [] ==> At(e, path) == Some(e);
    if FindStatus(e).Some? {
      forall q | FirstAt(e, q, IsStatus) ensures q == path {
        FirstAtIsUnique(e, IsStatus, path, q);
      }
    }
  }

  // ----- what a result tells about the texts -----

  /** The same error but for its texts and messages: same structure, codes, details and metadata. */
  ghost predicate SameShape(e: GoError, e': GoError) {
    match e
    case Plain(_) => e'.Plain?
    case StatusErr(_, status) => e'.StatusErr? && e'.status.code == status.code
    case Connect(_, err) => e'.Connect? && e'.err == err.(message := e'.err.message)
    case Wrapper(_, wrapped) => e'.Wrapper? && SameShapes(wrapped, e'.wrapped)
  }

  ghost predicate SameShapes(es: seq<GoError>, es': seq<GoError>) {
    if es == [] then es' == []
    else es' != [] && SameShape(es[0], es'[0]) && SameShapes(es[1..], es'[1..])
  }

  ghost predicate SameFound(found: Option<GoError>, found': Option<GoError>) {
    match found
    case None => found' == None
    case Some(e) => found'.Some? && SameShape(e, found'.value)
  }

  /** A kind that texts and messages have no part in. */
  ghost predicate ByShape(kind: GoError -> bool) {
    forall e, e' :: SameShape(e, e') ==> kind(e) == kind(e')
  }

  /** What errors.As finds keeps its shape. */
  lemma {:induction false} ShapeDecides(e: GoError, e': GoError, kind: GoError -> bool)
    requires SameShape(e, e') && ByShape(kind)
    ensures SameFound(As(e, kind), As(e', kind))
  {
    if e.Wrapper? {
      ShapesDecide(e.wrapped, e'.wrapped, kind);
    }
  }

  lemma {:induction false} ShapesDecide(es: seq<GoError>, es': seq<GoError>, kind: GoError -> bool)
    requires SameShapes(es, es') && ByShape(kind)
    ensures SameFound(AsAny(es, kind), AsAny(es', kind))
  {
    if es != [] {
      ShapeDecides(es[0], es'[0], kind);
      ShapesDecide(es[1..], es'[1..], kind);
    }
  }

  /** e with every text and message one character longer. */
  ghost function Longer(e: GoError): GoError {
    match e
    case Plain(text) => Plain(text + "x")
    case StatusErr(text, status) => StatusErr(text + "x", status.(message := status.message + "x"))
    case Connect(text, err) => Connect(text + "x", err.(message := err.message + "x"))
    case Wrapper(text, wrapped) => Wrapper(text + "x", AllLonger(wrapped))
  }

  ghost function AllLonger(es: seq<GoError>): seq<GoError> {
    if es == [] then [] else [Longer(es[0])] + AllLonger(es[1..])
  }

  lemma {:induction false} LongerHasShape(e: GoError)
    ensures SameShape(e, Longer(e))
  {
    if e.Wrapper? {
      AllLongerHaveShapes(e.wrapped);
    }
  }

  lemma {:induction false} AllLongerHaveShapes(es: seq<GoError>)
    ensures SameShapes(es, AllLonger(es))
  {
    if es != [] {
      LongerHasShape(es[0]);
      AllLongerHaveShapes(es[1..]);
      assert AllLonger(es)[1..] == AllLonger(es[1..]);
    }
  }

  lemma {:induction false} LongerFinds(e: GoError, kind: GoError -> bool)
    requires ByShape(kind)
    ensures As(Longer(e), kind) == (match As(e, kind) case None => None case Some(found) => Some(Longer(found)))
  {
    LongerHasShape(e);
    if e.Wrapper? {
      AllLongerFind(e.wrapped, kind);
    }
  }

  lemma {:induction false} AllLongerFind(es: seq<GoError>, kind: GoError -> bool)
    requires ByShape(kind)
    ensures AsAny(AllLonger(es), kind)
         == (match AsAny(es, kind) case None => None case Some(found) => Some(Longer(found)))
  {
    if es != [] {
      LongerFinds(es[0], kind);
      AllLongerFind(es[1..], kind);
      assert AllLonger(es)[1..] == AllLonger(es[1..]);
    }
  }

  /**
   For any error, with or without a Connect error inside: the result is logged as an error exactly when it
   would be the same whatever the texts and messages, that is, when it tells nothing about them.
   */
  lemma SeverityMeansHidden(e: GoError, r: ConnectError)
    requires Obfuscates(e, r)
    ensures LogSeverity(r) == ErrorLevel <==> forall e' :: SameShape(e, e') ==> Obfuscates(e', r)
  {
    AsIsKind(e, IsConnect);
    AsIsKind(e, IsStatus);
    if LogSeverity(r) == ErrorLevel {
      forall e' | SameShape(e, e') ensures Obfuscates(e', r) {
        ShapeDecides(e, e', IsConnect);
        ShapeDecides(e, e', IsStatus);
      }
    } else {
      LongerHasShape(e);
      LongerFinds(e, IsConnect);
      LongerFinds(e, IsStatus);
      assert !Obfuscates(Longer(e), r);
    }
  }

  /** Wrapping an error in more text shows exactly when no Connect error is inside and nothing is hidden. */
  lemma WrappingIsHiddenIff(e: GoError, r: ConnectError)
    requires Obfuscates(e, r)
    ensures (forall text :: Obfuscates(Wrapper(text, [e]), r)) <==> FindConnect(e).Some? || LogSeverity(r) == ErrorLevel
  {
    forall text
      ensures FindConnect(Wrapper(text, [e])) == FindConnect(e) && FindStatus(Wrapper(text, [e])) == FindStatus(e)
    {
      WrappedAlone(text, e);
    }
    if FindConnect(e) == None && LogSeverity(r) == InfoLevel {
      assert !Obfuscates(Wrapper(r.message + "x", [e]), r);
    }
  }

  lemma WrappedAlone(text: string, e: GoError)
    ensures FindConnect(Wrapper(text, [e])) == FindConnect(e) && FindStatus(Wrapper(text, [e])) == FindStatus(e)
  {
    var es := [e];
    assert es[1..] == [] && es[0] == e;
    assert AsAny(es, IsConnect) == As(e, IsConnect) && AsAny(es, IsStatus) == As(e, IsStatus);
  }
}
