/**
 * src/httpdiff/httpdiff.go: the first version of httpdiff. It sends the
 * method to both URLs with no body and no extra headers, honours only the
 * Host override, has no exclusion list, reports unique headers one line per
 * header, and compares equal-length bodies by their MD5 sums. It never
 * calls os.Exit, so its exit status is always 0.
 */
module SrcHttpDiff {
  import opened Wrappers
  import opened Http
  import opened Diff
  import HttpDiff

  // ---------------------------------------------------------------------------
  // Building the request (the first half of `do`)
  // ---------------------------------------------------------------------------

  /** The request `do` sends: never a body, no headers, the Host override only when it is set. */
  ghost predicate Built(req: Request, verb: string, host: string, uri: string) {
    && req.verb == RequestMethod(verb)
    && req.uri == uri
    && req.payload == None
    && req.host == (if host != "" then Some(host) else None)
    && req.header == map[]
  }

  method PrepareRequest(verb: string, host: string, uri: string) returns (req: Request)
    ensures Built(req, verb, host, uri)
  {
    req := Request(RequestMethod(verb), uri, None, None, map[]);
    if host != "" {
      req := req.(host := Some(host));
    }
  }

  /**
   * For a method other than POST and PUT, no User-Agent and no extra
   * headers, both versions build the same request.
   */
  lemma BuiltAsInNewerVersion(req: Request, s: HttpDiff.Settings, uri: string)
    requires Built(req, s.verb, s.host, uri)
    requires !HttpDiff.IsPayloadMethod(s.verb) && s.agent == ""
    ensures HttpDiff.Prepared(req, s, uri, map[])
  {
  }

  /** For POST and PUT they differ: this version sends no body. */
  lemma PayloadOnlyInNewerVersion(req: Request, s: HttpDiff.Settings, uri: string, extra: map<string, string>)
    requires Built(req, s.verb, s.host, uri)
    requires HttpDiff.IsPayloadMethod(s.verb)
    ensures !HttpDiff.Prepared(req, s, uri, extra)
  {
  }

  // ---------------------------------------------------------------------------
  // The two fetches and the error check
  // ---------------------------------------------------------------------------

  /** The two goroutines and the wait: slot i receives what fetching the i-th URL gave. */
  method Dispatch(verb: string, host: string, uris: seq<string>, network: (nat, Request) -> Outcome, slots: array<Outcome>)
    returns (ghost sent: seq<Request>)
    requires |uris| == 2 && slots.Length == 2
    modifies slots
    ensures |sent| == 2
    ensures forall i :: 0 <= i < 2 ==> Built(sent[i], verb, host, uris[i]) && slots[i] == network(i, sent[i])
  {
    sent := [];
    for i := 0 to 2
      invariant |sent| == i
      invariant forall j :: 0 <= j < i ==> Built(sent[j], verb, host, uris[j]) && slots[j] == network(j, sent[j])
    {
      var req := PrepareRequest(verb, host, uris[i]);
      slots[i] := network(i, req);
      sent := sent + [req];
    }
  }

  /** The error check after the join: every failed slot is printed; `quit` says whether any failed. */
  method ReportFailures(slots: array<Outcome>) returns (quit: bool, out: seq<Finding>)
    requires slots.Length == 2
    ensures quit <==> slots[0].Failed? || slots[1].Failed?
    ensures out == Failures(slots[..])
  {
    quit, out := false, [];
    for i := 0 to 2
      invariant quit <==> exists j :: 0 <= j < i && slots[j].Failed?
      invariant out == Failures(slots[..i])
    {
      assert slots[..i + 1][..i] == slots[..i];
      if slots[i].Failed? {
        out := out + [FetchFailed(i, slots[i].message)];
        quit := true;
      }
    }
    assert slots[..2] == slots[..];
  }

  // ---------------------------------------------------------------------------
  // The comparison
  // ---------------------------------------------------------------------------

  /** The "has ... header (... does not)" lines for side `side`, visiting `mine` in `order`. */
  function UniqueFindings(side: nat, mine: Headers, other: Headers, order: seq<string>): seq<Finding> {
    if order == [] then []
    else
      var n := |order| - 1;
      var h := order[n];
      UniqueFindings(side, mine, other, order[..n])
        + (if h in mine && h !in other then [HasUniqueHeader(side, h)] else [])
  }

  /** The unique-header loop after one more key. */
  lemma UniqueFindingsSnoc(side: nat, mine: Headers, other: Headers, order: seq<string>, h: string)
    ensures UniqueFindings(side, mine, other, order + [h]) ==
      UniqueFindings(side, mine, other, order) + (if h in mine && h !in other then [HasUniqueHeader(side, h)] else [])
  {
    assert (order + [h])[..|order|] == order;
  }

  /**
   * Visiting the keys of `mine` in any order, a line is printed for exactly
   * the headers `other` lacks; a header both sides have never is.
   */
  lemma {:induction false} UniqueFindingsExact(side: nat, mine: Headers, other: Headers, order: seq<string>)
    ensures forall f :: f in UniqueFindings(side, mine, other, order) <==>
      f.HasUniqueHeader? && f.side == side && f.name in order && f.name in mine && f.name !in other
  {
    if order != [] {
      var n := |order| - 1;
      UniqueFindingsExact(side, mine, other, order[..n]);
      assert order == order[..n] + [order[n]];
    }
  }

  /** Each of those headers is printed once. */
  lemma {:induction false} UniqueFindingsOnce(side: nat, mine: Headers, other: Headers, order: seq<string>)
    requires Distinct(order)
    ensures forall i, j :: 0 <= i < j < |UniqueFindings(side, mine, other, order)| ==>
      UniqueFindings(side, mine, other, order)[i] != UniqueFindings(side, mine, other, order)[j]
  {
    if order != [] {
      var n := |order| - 1;
      var h := order[n];
      assert Distinct(order[..n]);
      UniqueFindingsOnce(side, mine, other, order[..n]);
      UniqueFindingsExact(side, mine, other, order[..n]);
      assert h !in order[..n];
      var prefix := UniqueFindings(side, mine, other, order[..n]);
      assert HasUniqueHeader(side, h) !in prefix;
    }
  }

  /** The body check: a length mismatch alone, else a mismatch of the MD5 sums, else nothing. */
  function BodyFindings(b0: seq<byte>, b1: seq<byte>, md5: seq<byte> -> seq<byte>): seq<Finding> {
    if |b0| != |b1| then [BodyLengthsDiffer(|b0|, |b1|)]
    else if md5(b0) != md5(b1) then [BodiesDiffer]
    else []
  }

  /**
   * Byte-identical bodies are never reported, and with a digest that has no
   * collisions the check reports what a byte comparison would.
   */
  lemma BodyFindingsByDigest(b0: seq<byte>, b1: seq<byte>, md5: seq<byte> -> seq<byte>)
    ensures b0 == b1 ==> BodyFindings(b0, b1, md5) == []
    ensures (forall x, y :: md5(x) == md5(y) ==> x == y) ==>
      BodyFindings(b0, b1, md5) == HttpDiff.BodyFindings(b0, b1)
  {
  }

  /**
   * Everything main prints after the error check, in its order, when the
   * header loop visits side 0 in `order` and the unique-header loops visit
   * side 0 in `order0` and side 1 in `order1`.
   */
  function Comparison(r0: Response, r1: Response, md5: seq<byte> -> seq<byte>,
                      order: seq<string>, order0: seq<string>, order1: seq<string>): seq<Finding> {
    StatusFindings(r0.status, r1.status)
    + SharedFindings(r0.header, r1.header, {}, order)
    + UniqueFindings(0, r0.header, r1.header, order0)
    + UniqueFindings(1, r1.header, r0.header, order1)
    + BodyFindings(r0.body, r1.body, md5)
  }

  /** One header both sides have: counts first, then the values when the counts agree. */
  method CompareHeader(h: string, v0: seq<string>, v1: seq<string>) returns (fs: seq<Finding>)
    ensures fs == HeaderFindings(h, v0, v1)
  {
    if |v0| != |v1| {
      return [HeaderCountDiffers(h, |v0|, |v1|)];
    }
    fs := [];
    for i := 0 to |v0|
      invariant fs + ValueFindings(h, v0, v1, i) == ValueFindings(h, v0, v1, 0)
    {
      ValueFindingsStep(h, v0, v1, i);
      var here := if v0[i] != v1[i] then [HeaderValueDiffers(h, i, v0[i], v1[i])] else [];
      Associate(fs, here, ValueFindings(h, v0, v1, i + 1));
      fs := fs + here;
    }
    assert fs + [] == fs;
  }


  /** The first loop over side 0's headers: the ones side 1 also has are compared. */
  method CompareShared(h0: Headers, h1: Headers) returns (fs: seq<Finding>, ghost order: seq<string>)
    ensures IsOrdering(order, h0.Keys)
    ensures fs == SharedFindings(h0, h1, {}, order)
    ensures forall h :: About(fs, h) == PairFindings(h0, h1, {}, h)
  {
    fs, order := [], [];
    var rest := h0.Keys;
    while rest != {}
      invariant rest <= h0.Keys
      invariant forall k :: k in order <==> k in h0 && k !in rest
      invariant Distinct(order)
      invariant fs == SharedFindings(h0, h1, {}, order)
      decreases rest
    {
      var h :| h in rest;
      OrderStep(order, rest, h0.Keys, h);
      SharedFindingsSnoc(h0, h1, {}, order, h);
      if h in h1 {
        var more := CompareHeader(h, h0[h], h1[h]);
        fs := fs + more;
      }
      order := order + [h];
      rest := rest - {h};
    }
    forall h
      ensures About(fs, h) == PairFindings(h0, h1, {}, h)
    {
      SharedFindingsPerHeader(h0, h1, {}, order, h);
    }
  }

  /** The second and third loops: side `side`'s headers that the other side lacks. */
  method ListUnique(side: nat, mine: Headers, other: Headers) returns (fs: seq<Finding>, ghost order: seq<string>)
    ensures IsOrdering(order, mine.Keys)
    ensures fs == UniqueFindings(side, mine, other, order)
    ensures forall f :: f in fs <==>
      f.HasUniqueHeader? && f.side == side && f.name in mine && f.name !in other
  {
    fs, order := [], [];
    var rest := mine.Keys;
    while rest != {}
      invariant rest <= mine.Keys
      invariant forall k :: k in order <==> k in mine && k !in rest
      invariant Distinct(order)
      invariant fs == UniqueFindings(side, mine, other, order)
      decreases rest
    {
      var h :| h in rest;
      OrderStep(order, rest, mine.Keys, h);
      UniqueFindingsSnoc(side, mine, other, order, h);
      if h !in other {
        fs := fs + [HasUniqueHeader(side, h)];
      }
      order := order + [h];
      rest := rest - {h};
    }
    UniqueFindingsExact(side, mine, other, order);
  }

  /** The comparison section of main: status, shared headers, unique headers of each side, body. */
  method Compare(r0: Response, r1: Response, md5: seq<byte> -> seq<byte>)
    returns (out: seq<Finding>, ghost order: seq<string>, ghost order0: seq<string>, ghost order1: seq<string>)
    ensures IsOrdering(order, r0.header.Keys)
    ensures IsOrdering(order0, r0.header.Keys) && IsOrdering(order1, r1.header.Keys)
    ensures out == Comparison(r0, r1, md5, order, order0, order1)
    ensures forall h :: About(out, h) == PairFindings(r0.header, r1.header, {}, h)
  {
    out := [];
    if r0.status != r1.status {
      out := out + [StatusDiffers(r0.status, r1.status)];
    }
    assert out == StatusFindings(r0.status, r1.status);
    var shared, unique0, unique1;
    shared, order := CompareShared(r0.header, r1.header);
    out := out + shared;
    unique0, order0 := ListUnique(0, r0.header, r1.header);
    out := out + unique0;
    unique1, order1 := ListUnique(1, r1.header, r0.header);
    out := out + unique1;
    ghost var before := out;
    if |r0.body| != |r1.body| {
      out := out + [BodyLengthsDiffer(|r0.body|, |r1.body|)];
    } else if md5(r0.body) != md5(r1.body) {
      out := out + [BodiesDiffer];
    }
    assert out == before + BodyFindings(r0.body, r1.body, md5);
    forall h
      ensures About(out, h) == PairFindings(r0.header, r1.header, {}, h)
    {
      ComparisonPerHeader(r0, r1, md5, order, order0, order1, h);
    }
  }

  /**
   * main after flag parsing: anything but two URLs stops it; then fetch both
   * URLs, stop on any error, and compare.
   */
  method Run(verb: string, host: string, uris: seq<string>, network: (nat, Request) -> Outcome,
             md5: seq<byte> -> seq<byte>)
    returns (out: seq<Finding>, ghost sent: seq<Request>, ghost orders: seq<seq<string>>)
    ensures |uris| != 2 ==> out == [NeedTwoUrls]
    ensures |uris| == 2 ==>
      && |sent| == 2
      && (forall i :: 0 <= i < 2 ==> Built(sent[i], verb, host, uris[i]))
      && var f0, f1 := network(0, sent[0]), network(1, sent[1]);
      && ((f0.Failed? || f1.Failed?) ==> out == Failures([f0, f1]))
      && (f0.Fetched? && f1.Fetched? ==>
            var r0, r1 := f0.response, f1.response;
            && |orders| == 3
            && IsOrdering(orders[0], r0.header.Keys)
            && IsOrdering(orders[1], r0.header.Keys)
            && IsOrdering(orders[2], r1.header.Keys)
            && out == Failures([f0, f1]) + Comparison(r0, r1, md5, orders[0], orders[1], orders[2]))
  {
    sent, orders := [], [];
    if |uris| != 2 {
      return [NeedTwoUrls], sent, orders;
    }
    var slots := new Outcome[2](_ => Failed(""));
    sent := Dispatch(verb, host, uris, network, slots);
    var quit;
    quit, out := ReportFailures(slots);
    assert slots[..] == [network(0, sent[0]), network(1, sent[1])];
    if quit {
      return;
    }
    var compared;
    ghost var order, order0, order1;
    compared, order, order0, order1 := Compare(slots[0].response, slots[1].response, md5);
    orders := [order, order0, order1];
    out := out + compared;
  }

  // ---------------------------------------------------------------------------
  // What the report says, whatever order the maps are visited in
  // ---------------------------------------------------------------------------

  /** No count or value finding in a list of "has ... header" lines. */
  lemma {:induction false} UniqueFindingsMentionNothing(side: nat, mine: Headers, other: Headers, order: seq<string>)
    ensures forall j :: 0 <= j < |UniqueFindings(side, mine, other, order)| ==>
      UniqueFindings(side, mine, other, order)[j].HasUniqueHeader?
  {
    if order != [] {
      UniqueFindingsMentionNothing(side, mine, other, order[..|order| - 1]);
    }
  }

  /**
   * The count and value findings about header `h` are exactly what `h` alone
   * produces; in particular a header the other side lacks gets none.
   */
  lemma ComparisonPerHeader(r0: Response, r1: Response, md5: seq<byte> -> seq<byte>,
                            order: seq<string>, order0: seq<string>, order1: seq<string>, h: string)
    requires IsOrdering(order, r0.header.Keys)
    ensures About(Comparison(r0, r1, md5, order, order0, order1), h) == PairFindings(r0.header, r1.header, {}, h)
    ensures h !in r1.header ==> About(Comparison(r0, r1, md5, order, order0, order1), h) == []
  {
    var a := StatusFindings(r0.status, r1.status);
    var b := SharedFindings(r0.header, r1.header, {}, order);
    var c := UniqueFindings(0, r0.header, r1.header, order0);
    var d := UniqueFindings(1, r1.header, r0.header, order1);
    var e := BodyFindings(r0.body, r1.body, md5);
    AboutNone(a, h);
    UniqueFindingsMentionNothing(0, r0.header, r1.header, order0);
    UniqueFindingsMentionNothing(1, r1.header, r0.header, order1);
    AboutNone(c, h);
    AboutNone(d, h);
    AboutNone(e, h);
    AboutAround(a, b, c, d, e, h);
    SharedFindingsPerHeader(r0.header, r1.header, {}, order, h);
  }

  /** Filtering a report whose other parts mention nothing about `h` keeps the part that does. */
  lemma AboutAround(a: seq<Finding>, b: seq<Finding>, c: seq<Finding>, d: seq<Finding>, e: seq<Finding>, h: string)
    requires About(a, h) == [] && About(c, h) == [] && About(d, h) == [] && About(e, h) == []
    ensures About(a + b + c + d + e, h) == About(b, h)
  {
    AboutAppend(a + b + c + d, e, h);
    AboutAppend(a + b + c, d, h);
    AboutAppend(a + b, c, h);
    AboutAppend(a, b, h);
  }

  /** A response compared with itself lists no unique header. */
  lemma {:induction false} UniqueFindingsOfSame(side: nat, h: Headers, order: seq<string>)
    ensures UniqueFindings(side, h, h, order) == []
  {
    if order != [] {
      UniqueFindingsOfSame(side, h, order[..|order| - 1]);
    }
  }

  /** Two identical responses give an empty report, in any order of visiting the headers. */
  lemma ComparisonOfSame(r: Response, md5: seq<byte> -> seq<byte>,
                         order: seq<string>, order0: seq<string>, order1: seq<string>)
    ensures Comparison(r, r, md5, order, order0, order1) == []
  {
    SharedFindingsOfSame(r.header, {}, order);
    UniqueFindingsOfSame(0, r.header, order0);
    UniqueFindingsOfSame(1, r.header, order1);
  }
}
