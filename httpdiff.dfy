/**
 * httpdiff.go: sends one request to two URLs and reports how the two
 * responses differ. The command line arrives already parsed as `Settings`;
 * the network is the function `network`, which maps the slot of a fetch
 * (0 or 1) and its request to what fetching it gave, so two fetches of the
 * same URL may give different outcomes.
 */
module HttpDiff {
  import opened Wrappers
  import opened Strings
  import opened Http
  import opened Diff

  /** The flags and arguments main reads. */
  datatype Settings = Settings(
    verb: string,               // -method
    body: string,               // -body
    host: string,               // -host
    ignore: string,             // -ignore
    agent: string,              // -agent
    header: string,             // -header
    headerLines: seq<string>,   // the lines of the -headers file
    uris: seq<string>)          // the two URL arguments

  /** The process exit status: 0, 1 or 2. */
  datatype ExitCode = Same | Different | Fatal {
    function Code(): nat {
      match this
      case Same => 0
      case Different => 1
      case Fatal => 2
    }
  }

  // ---------------------------------------------------------------------------
  // parseHeader and the extra headers
  // ---------------------------------------------------------------------------

  /**
   * parseHeader: a `Name: Value` line is cut at its first colon, both parts
   * trimmed, the name canonicalised and the pair stored; a line with no colon
   * is fatal (None).
   */
  function ParseHeader(hdr: string, m: map<string, string>): (r: Option<map<string, string>>)
    ensures r.None? <==> ':' !in hdr
  {
    match SplitAtFirst(hdr, ':')
    case None => None
    case Some((name, value)) => Some(m[CanonicalHeaderKey(TrimSpace(name)) := TrimSpace(value)])
  }

  /** The entry parseHeader adds is filed under a canonical name, and every earlier entry stays. */
  lemma ParseHeaderCanonical(hdr: string, m: map<string, string>)
    requires ParseHeader(hdr, m).Some?
    ensures m.Keys <= ParseHeader(hdr, m).value.Keys
    ensures forall k :: k in ParseHeader(hdr, m).value && k !in m ==> CanonicalHeaderKey(k) == k
  {
    var (name, value) := SplitAtFirst(hdr, ':').value;
    CanonicalIdempotent(TrimSpace(name));
  }

  /**
   * Cutting happens at the first colon: later colons stay in the value, an
   * empty name is accepted, an entry under the same name is overwritten
   * and every other entry is kept.
   */
  lemma ParseHeaderAtFirstColon(name: string, value: string, m: map<string, string>)
    requires ':' !in name
    ensures ParseHeader(name + ":" + value, m) ==
      Some(m[CanonicalHeaderKey(TrimSpace(name)) := TrimSpace(value)])
  {
    assert name + ":" + value == name + [':'] + value;
    SplitAtFirstUnique(name, value, ':');
  }

  /** The header lines main hands to parseHeader: the -header flag when set, then the file's lines. */
  function HeaderSources(header: string, lines: seq<string>): seq<string> {
    (if header != "" then [header] else []) + lines
  }

  /**
   * The line parser `parse` over the lines from position `from` on: the
   * first line it rejects stops everything and is reported; otherwise each
   * line updates the state.
   */
  function FoldLines<M>(parse: (string, M) -> Option<M>, m: M, lines: seq<string>, from: nat): Result<M, string>
    requires from <= |lines|
    decreases |lines| - from
  {
    if from == |lines| then Ok(m)
    else
      match parse(lines[from], m)
      case None => Err(lines[from])
      case Some(m') => FoldLines(parse, m', lines, from + 1)
  }

  /** parseHeader over the lines from position `from` on, into `m`. */
  function ApplyHeaderLines(m: map<string, string>, lines: seq<string>, from: nat): Result<map<string, string>, string>
    requires from <= |lines|
  {
    FoldLines(ParseHeader, m, lines, from)
  }

  /** The first line without a colon is the one reported, whatever follows it. */
  lemma {:induction false} ApplyHeaderLinesStopsAtFirstBad(m: map<string, string>, lines: seq<string>, from: nat, i: nat)
    requires from <= i < |lines| && ':' !in lines[i]
    requires forall j :: from <= j < i ==> ':' in lines[j]
    ensures ApplyHeaderLines(m, lines, from) == Err(lines[i])
    decreases i - from
  {
    var line := lines[from];
    if from < i {
      assert ':' in line;
      assert ParseHeader(line, m).Some?;
      ApplyHeaderLinesStopsAtFirstBad(ParseHeader(line, m).value, lines, from + 1, i);
    } else {
      assert ':' !in line;
      assert ParseHeader(line, m).None?;
    }
  }

  /** Every name the lines add is canonical, so Header.Add later files each under its own name. */
  lemma {:induction false} ApplyHeaderLinesCanonical(m: map<string, string>, lines: seq<string>, from: nat)
    requires from <= |lines|
    requires forall k :: k in m ==> CanonicalHeaderKey(k) == k
    ensures ApplyHeaderLines(m, lines, from).Ok? ==>
      forall k :: k in ApplyHeaderLines(m, lines, from).value ==> CanonicalHeaderKey(k) == k
    decreases |lines| - from
  {
    if from < |lines| && ParseHeader(lines[from], m).Some? {
      ParseHeaderCanonical(lines[from], m);
      ApplyHeaderLinesCanonical(ParseHeader(lines[from], m).value, lines, from + 1);
    }
  }

  /** Lines that all hold a colon are all applied. */
  lemma {:induction false} ApplyHeaderLinesSucceeds(m: map<string, string>, lines: seq<string>, from: nat)
    requires from <= |lines|
    requires forall j :: from <= j < |lines| ==> ':' in lines[j]
    ensures ApplyHeaderLines(m, lines, from).Ok?
    decreases |lines| - from
  {
    if from < |lines| {
      var line := lines[from];
      assert ':' in line;
      assert ParseHeader(line, m).Some?;
      ApplyHeaderLinesSucceeds(ParseHeader(line, m).value, lines, from + 1);
    }
  }

  /**
   * main's reading of -header and of the -headers file: each line goes
   * through parseHeader in order, into one map, starting empty.
   */
  method ExtraHeaders(header: string, lines: seq<string>) returns (r: Result<map<string, string>, string>)
    ensures r == ApplyHeaderLines(map[], HeaderSources(header, lines), 0)
  {
    r := ApplyLines(ParseHeader, map[], HeaderSources(header, lines));
  }

  /** The loop calling `parse` on each line in order, from `m0`; the first rejected line stops it. */
  method ApplyLines<M>(parse: (string, M) -> Option<M>, m0: M, lines: seq<string>) returns (r: Result<M, string>)
    ensures r == FoldLines(parse, m0, lines, 0)
  {
    var m := m0;
    var i := 0;
    while i < |lines|
      invariant 0 <= i <= |lines|
      invariant FoldLines(parse, m, lines, i) == FoldLines(parse, m0, lines, 0)
    {
      var parsed := parse(lines[i], m);
      if parsed.None? {
        return Err(lines[i]);
      }
      m := parsed.value;
      i := i + 1;
    }
    return Ok(m);
  }

  // ---------------------------------------------------------------------------
  // The exclusion set
  // ---------------------------------------------------------------------------

  /** The headers -ignore names: each comma-separated item, canonicalised, with no trimming. */
  function ExclusionSet(ignore: string): set<string> {
    if ignore == "" then {}
    else set item | item in Split(ignore, ',') :: CanonicalHeaderKey(item)
  }

  /** main's loop filling `exclude`. */
  method Exclusions(ignore: string) returns (exclude: set<string>)
    ensures exclude == ExclusionSet(ignore)
  {
    exclude := {};
    if ignore != "" {
      var h := Split(ignore, ',');
      for i := 0 to |h|
        invariant exclude == set item | item in h[..i] :: CanonicalHeaderKey(item)
      {
        assert h[..i + 1] == h[..i] + [h[i]];
        exclude := exclude + {CanonicalHeaderKey(h[i])};
      }
      assert h[..|h|] == h;
    }
  }

  /**
   * An -ignore item written in any ASCII case excludes the response header
   * of that name, since response header names arrive canonical.
   */
  lemma ExclusionIgnoresCase(ignore: string, item: string, name: string)
    requires ignore != "" && item in Split(ignore, ',')
    requires IsToken(item) && |item| == |name|
    requires forall i :: 0 <= i < |item| ==> LowerAscii(item[i]) == LowerAscii(name[i])
    requires CanonicalHeaderKey(name) == name
    ensures name in ExclusionSet(ignore)
  {
    CanonicalIgnoresCase(item, name);
  }

  // ---------------------------------------------------------------------------
  // Building the request (the first half of `do`)
  // ---------------------------------------------------------------------------

  /**
   * Whether `do` attaches the body: the method is POST or PUT, in any case.
   * For an ASCII method that means "post" or "put" once in lower case.
   */
  predicate IsPayloadMethod(verb: string)
    ensures IsPayloadMethod(verb) ==> |verb| == 4 || |verb| == 3
    ensures IsAscii(verb) ==> (IsPayloadMethod(verb) <==> LowerAll(verb) == "post" || LowerAll(verb) == "put")
  {
    EqualFold("POST", verb) || EqualFold("PUT", verb)
  }

  /**
   * The request `do` sends to `uri`: the body only for POST and PUT, the
   * Host override only when it is set, User-Agent exactly [agent] when the
   * agent is set, and each extra header's value after any existing value
   * of that name.
   */
  ghost predicate Prepared(req: Request, s: Settings, uri: string, extra: map<string, string>) {
    && req.verb == RequestMethod(s.verb)
    && req.uri == uri
    && req.payload == (if IsPayloadMethod(s.verb) then Some(s.body) else None)
    && req.host == (if s.host != "" then Some(s.host) else None)
    && req.header.Keys == extra.Keys + (if s.agent != "" then {UserAgent} else {})
    && forall k :: k in req.header ==>
         req.header[k] == (if s.agent != "" && k == UserAgent then [s.agent] else [])
                          + (if k in extra then [extra[k]] else [])
  }

  /** The two requests of a run differ in their target alone. */
  lemma PreparedDiffersOnlyInTarget(a: Request, b: Request, s: Settings, u: string, v: string, extra: map<string, string>)
    requires Prepared(a, s, u, extra) && Prepared(b, s, v, extra)
    ensures a.(uri := v) == b
  {
    assert a.header == b.header;
  }

  /** Header.Add under a name that is already canonical. */
  lemma AddCanonical(h: Headers, k: string, v: string)
    requires CanonicalHeaderKey(k) == k
    ensures Add(h, k, v) == h[k := (if k in h then h[k] else []) + [v]]
  {
  }

  /** The header of a prepared request once the names in `done` have been added. */
  ghost function HeaderAfter(agent: string, extra: map<string, string>, done: set<string>): Headers
    requires done <= extra.Keys
  {
    map k | k in done + (if agent != "" then {UserAgent} else {}) ::
      (if agent != "" && k == UserAgent then [agent] else []) + (if k in done then [extra[k]] else [])
  }

  /** Before any extra header: User-Agent alone, when the agent is set. */
  lemma HeaderAfterNone(agent: string, extra: map<string, string>)
    ensures HeaderAfter(agent, extra, {}) == if agent != "" then map[UserAgent := [agent]] else map[]
  {
    var h := HeaderAfter(agent, extra, {});
    if agent != "" {
      assert h.Keys == {UserAgent};
      assert h[UserAgent] == [agent] + [];
      assert [agent] + [] == [agent];
    } else {
      assert h.Keys == {};
    }
  }

  /** Adding one more extra header to the prepared header. */
  lemma HeaderAfterStep(agent: string, extra: map<string, string>, done: set<string>, k: string)
    requires done <= extra.Keys && k in extra && k !in done
    requires CanonicalHeaderKey(k) == k
    ensures Add(HeaderAfter(agent, extra, done), k, extra[k]) == HeaderAfter(agent, extra, done + {k})
  {
    var h := HeaderAfter(agent, extra, done);
    AddCanonical(h, k, extra[k]);
    var h' := HeaderAfter(agent, extra, done + {k});
    var added := h[k := (if k in h then h[k] else []) + [extra[k]]];
    assert added.Keys == h'.Keys;
    forall j | j in h'
      ensures added[j] == h'[j]
    {
    }
  }

  /**
   * `do` up to the round trip. The names in `extra` come from parseHeader,
   * so they are canonical and Header.Add files each under its own name.
   */
  method PrepareRequest(s: Settings, uri: string, extra: map<string, string>) returns (req: Request)
    requires forall k :: k in extra ==> CanonicalHeaderKey(k) == k
    ensures Prepared(req, s, uri, extra)
  {
    if IsPayloadMethod(s.verb) {
      req := Request(RequestMethod(s.verb), uri, Some(s.body), None, map[]);
    } else {
      req := Request(RequestMethod(s.verb), uri, None, None, map[]);
    }
    if s.host != "" {
      req := req.(host := Some(s.host));
    }
    var header := BuildHeader(s.agent, extra);
    HeaderAfterAll(s.agent, extra);
    req := req.(header := header);
  }

  /** The User-Agent replacement, then Header.Add for each extra header in map order. */
  method BuildHeader(agent: string, extra: map<string, string>) returns (header: Headers)
    requires forall k :: k in extra ==> CanonicalHeaderKey(k) == k
    ensures header == HeaderAfter(agent, extra, extra.Keys)
  {
    header := map[];
    if agent != "" {
      header := header[UserAgent := [agent]];
    }
    HeaderAfterNone(agent, extra);
    var rest, done := extra.Keys, {};
    while rest != {}
      invariant done + rest == extra.Keys && done !! rest
      invariant header == HeaderAfter(agent, extra, done)
      decreases rest
    {
      var k :| k in rest;
      HeaderAfterStep(agent, extra, done, k);
      header := Add(header, k, extra[k]);
      done, rest := done + {k}, rest - {k};
    }
  }

  /** Once every extra header is added, the header is the one Prepared describes. */
  lemma HeaderAfterAll(agent: string, extra: map<string, string>)
    ensures HeaderAfter(agent, extra, extra.Keys).Keys == extra.Keys + (if agent != "" then {UserAgent} else {})
    ensures forall k :: k in HeaderAfter(agent, extra, extra.Keys) ==>
      HeaderAfter(agent, extra, extra.Keys)[k] ==
        (if agent != "" && k == UserAgent then [agent] else []) + (if k in extra then [extra[k]] else [])
  {
  }

  // ---------------------------------------------------------------------------
  // The report: findings as main prints them
  // ---------------------------------------------------------------------------

  /** The names of `mine` that are not excluded and absent from `other`, in `order`. */
  function UniqueSeq(mine: Headers, other: Headers, exclude: set<string>, order: seq<string>): seq<string> {
    if order == [] then []
    else
      var n := |order| - 1;
      var h := order[n];
      UniqueSeq(mine, other, exclude, order[..n])
        + (if h in mine && h !in exclude && h !in other then [h] else [])
  }

  lemma UniqueSeqSnoc(mine: Headers, other: Headers, exclude: set<string>, order: seq<string>, h: string)
    ensures UniqueSeq(mine, other, exclude, order + [h]) ==
      UniqueSeq(mine, other, exclude, order) + (if h in mine && h !in exclude && h !in other then [h] else [])
  {
    assert (order + [h])[..|order|] == order;
  }

  /** `only[i]`: each name followed by one space. */
  function SpaceJoin(names: seq<string>): string {
    if names == [] then ""
    else
      var n := |names| - 1;
      SpaceJoin(names[..n]) + names[n] + " "
  }

  lemma SpaceJoinSnoc(names: seq<string>, h: string)
    ensures SpaceJoin(names + [h]) == SpaceJoin(names) + h + " "
  {
    assert (names + [h])[..|names|] == names;
  }

  /**
   * Visiting the keys of `mine` in any order, the unique names are listed
   * once each, and they are exactly the non-excluded names that `other`
   * lacks.
   */
  lemma {:induction false} UniqueSeqExact(mine: Headers, other: Headers, exclude: set<string>, order: seq<string>)
    requires Distinct(order)
    ensures Distinct(UniqueSeq(mine, other, exclude, order))
    ensures forall h :: h in UniqueSeq(mine, other, exclude, order) <==>
      h in order && h in mine && h !in exclude && h !in other
  {
    if order != [] {
      var n := |order| - 1;
      assert Distinct(order[..n]);
      UniqueSeqExact(mine, other, exclude, order[..n]);
      assert order == order[..n] + [order[n]];
      assert order[n] !in order[..n];
    }
  }

  /** `only[i]` is empty exactly when no name is unique to that side. */
  lemma SpaceJoinEmpty(names: seq<string>)
    ensures SpaceJoin(names) == "" <==> names == []
  {
    if names != [] {
      var n := |names| - 1;
      assert |SpaceJoin(names)| >= 1;
    }
  }

  /** The lines under the "Unique headers" title: one for each side whose list is not empty. */
  function UniqueLines(only: seq<string>): seq<Finding> {
    if only == [] then []
    else
      var n := |only| - 1;
      UniqueLines(only[..n]) + (if only[n] != "" then [UniqueHeaders(n, only[n])] else [])
  }

  /** The "Unique headers" block: the title and the lines, or nothing when there is no line. */
  function UniqueBlock(only: seq<string>): seq<Finding> {
    var lines := UniqueLines(only);
    if lines == [] then [] else [UniqueHeadersTitle] + lines
  }

  /** The body check: a length mismatch alone, else a content mismatch alone, else nothing. */
  function BodyFindings(b0: seq<byte>, b1: seq<byte>): seq<Finding> {
    if |b0| != |b1| then [BodyLengthsDiffer(|b0|, |b1|)]
    else if b0 != b1 then [BodiesDiffer]
    else []
  }

  /**
   * Everything the comparison section of main prints, in its order, when the
   * header loop visits side 0 in `order`, and the unique-header loops visit
   * side 0 in `order0` and side 1 in `order1`.
   */
  function Comparison(r0: Response, r1: Response, exclude: set<string>,
                      order: seq<string>, order0: seq<string>, order1: seq<string>): seq<Finding> {
    StatusFindings(r0.status, r1.status)
    + SharedFindings(r0.header, r1.header, exclude, order)
    + UniqueBlock([SpaceJoin(UniqueSeq(r0.header, r1.header, exclude, order0)),
                   SpaceJoin(UniqueSeq(r1.header, r0.header, exclude, order1))])
    + BodyFindings(r0.body, r1.body)
  }

  /**
   * The exit status at the end of main: exit(1) when `notsame` is set,
   * exit(0) otherwise, and status 0 as well when main returns early because
   * the bodies could not be written out for inspection.
   */
  function ExitStatus(notsame: bool, dump: bool, artifactsWritten: bool): (r: ExitCode)
    ensures r != Fatal
    ensures r == Different <==> notsame && (!dump || artifactsWritten)
  {
    if dump && !artifactsWritten then Same
    else if notsame then Different
    else Same
  }

  /**
   * What `notsame` holds once one shared header has been compared: the count
   * test when the counts differ, else the test of the last pair of values
   * (false when there are none).
   */
  function HeaderNotSame(v0: seq<string>, v1: seq<string>): bool {
    |v0| != |v1| || (|v0| > 0 && v0[|v0| - 1] != v1[|v0| - 1])
  }

  /**
   * What `notsame` holds after the header loop has visited side 0 in `order`,
   * starting from `before`: the result of the last header compared, or
   * `before` when no header was compared.
   */
  function NotSameAfter(h0: Headers, h1: Headers, exclude: set<string>, order: seq<string>, before: bool): bool {
    if order == [] then before
    else
      var n := |order| - 1;
      var h := order[n];
      if h !in exclude && h in h0 && h in h1 then HeaderNotSame(h0[h], h1[h])
      else NotSameAfter(h0, h1, exclude, order[..n], before)
  }

  lemma NotSameAfterSnoc(h0: Headers, h1: Headers, exclude: set<string>, order: seq<string>, before: bool, h: string)
    ensures NotSameAfter(h0, h1, exclude, order + [h], before) ==
      if h !in exclude && h in h0 && h in h1 then HeaderNotSame(h0[h], h1[h])
      else NotSameAfter(h0, h1, exclude, order, before)
  {
    assert (order + [h])[..|order|] == order;
  }

  /** A header that leaves `notsame` set has printed a finding of its own. */
  lemma HeaderNotSameReported(name: string, v0: seq<string>, v1: seq<string>)
    requires HeaderNotSame(v0, v1)
    ensures HeaderFindings(name, v0, v1) != []
  {
    if |v0| == |v1| {
      var n := |v0| - 1;
      ValueFindingsCover(name, v0, v1, 0);
      assert HeaderValueDiffers(name, n, v0[n], v1[n]) in ValueFindings(name, v0, v1, 0);
    }
  }

  /**
   * When the header loop, started with `notsame` false, leaves it set, it has
   * printed a finding; the converse fails, since a later header that agrees
   * clears the flag again.
   */
  lemma {:induction false} NotSameAfterReported(h0: Headers, h1: Headers, exclude: set<string>, order: seq<string>)
    requires NotSameAfter(h0, h1, exclude, order, false)
    ensures SharedFindings(h0, h1, exclude, order) != []
  {
    var n := |order| - 1;
    var h := order[n];
    if h !in exclude && h in h0 && h in h1 {
      HeaderNotSameReported(h, h0[h], h1[h]);
    } else {
      NotSameAfterReported(h0, h1, exclude, order[..n]);
    }
  }

  /**
   * The process state that main's comparison updates: the global `notsame`
   * and what has been printed so far.
   */
  class Session {
    var notsame: bool
    var output: seq<Finding>

    constructor ()
      ensures !notsame && output == []
    {
      notsame := false;
      output := [];
    }

    /**
     * vs at the header-value print site: `notsame` is overwritten with
     * whether the values differ, which is also returned and printed.
     */
    method Vs(a: string, b: string, name: string, index: nat) returns (differ: bool)
      modifies this
      ensures differ == (a != b) && notsame == differ
      ensures output == old(output) + (if differ then [HeaderValueDiffers(name, index, a, b)] else [])
    {
      notsame := a != b;
      if notsame {
        output := output + [HeaderValueDiffers(name, index, a, b)];
      }
      differ := notsame;
    }

    /** vsi: the same for integers; `finding` is what its print site reports. */
    method Vsi(a: int, b: int, finding: Finding) returns (differ: bool)
      modifies this
      ensures differ == (a != b) && notsame == differ
      ensures output == old(output) + (if differ then [finding] else [])
    {
      notsame := a != b;
      if notsame {
        output := output + [finding];
      }
      differ := notsame;
    }

    /** The error check after the join: every failed slot is printed, and `quit` says whether any failed. */
    method ReportFailures(slots: array<Outcome>) returns (quit: bool)
      requires slots.Length == 2
      modifies this
      ensures quit <==> slots[0].Failed? || slots[1].Failed?
      ensures output == old(output) + Failures(slots[..])
      ensures notsame == old(notsame)
    {
      quit := false;
      for i := 0 to 2
        invariant quit <==> exists j :: 0 <= j < i && slots[j].Failed?
        invariant output == old(output) + Failures(slots[..i])
        invariant notsame == old(notsame)
      {
        assert slots[..i + 1][..i] == slots[..i];
        if slots[i].Failed? {
          output := output + [FetchFailed(i, slots[i].message)];
          quit := true;
        }
      }
      assert slots[..2] == slots[..];
    }

    /** One header both sides have: counts first, then the values when the counts agree. */
    method CompareHeader(h: string, v0: seq<string>, v1: seq<string>)
      modifies this
      ensures output == old(output) + HeaderFindings(h, v0, v1)
      ensures notsame == HeaderNotSame(v0, v1)
    {
      var countsDiffer := Vsi(|v0|, |v1|, HeaderCountDiffers(h, |v0|, |v1|));
      if !countsDiffer {
        for i := 0 to |v0|
          invariant output + ValueFindings(h, v0, v1, i) == old(output) + ValueFindings(h, v0, v1, 0)
          invariant notsame == (i > 0 && v0[i - 1] != v1[i - 1])
        {
          ValueFindingsStep(h, v0, v1, i);
          ghost var here := if v0[i] != v1[i] then [HeaderValueDiffers(h, i, v0[i], v1[i])] else [];
          Associate(output, here, ValueFindings(h, v0, v1, i + 1));
          var _ := Vs(v0[i], v1[i], h, i);
        }
        assert output + [] == output;
      }
    }

    /** The loop over side 0's headers, comparing the ones both sides have. */
    method CompareHeaders(r0: Response, r1: Response, exclude: set<string>) returns (ghost order: seq<string>)
      modifies this
      ensures IsOrdering(order, r0.header.Keys)
      ensures output == old(output) + SharedFindings(r0.header, r1.header, exclude, order)
      ensures notsame == NotSameAfter(r0.header, r1.header, exclude, order, old(notsame))
    {
      var rest := r0.header.Keys;
      order := [];
      while rest != {}
        invariant rest <= r0.header.Keys
        invariant forall k :: k in order <==> k in r0.header && k !in rest
        invariant Distinct(order)
        invariant output == old(output) + SharedFindings(r0.header, r1.header, exclude, order)
        invariant notsame == NotSameAfter(r0.header, r1.header, exclude, order, old(notsame))
        decreases rest
      {
        var h :| h in rest;
        OrderStep(order, rest, r0.header.Keys, h);
        SharedFindingsSnoc(r0.header, r1.header, exclude, order, h);
        NotSameAfterSnoc(r0.header, r1.header, exclude, order, old(notsame), h);
        ghost var pair := PairFindings(r0.header, r1.header, exclude, h);
        Associate(old(output), SharedFindings(r0.header, r1.header, exclude, order), pair);
        ghost var before := output;
        if h !in exclude && h in r1.header {
          CompareHeader(h, r0.header[h], r1.header[h]);
        } else {
          assert output == before + pair;
        }
        order := order + [h];
        rest := rest - {h};
      }
    }

    /** The "Unique headers" block: a line for each side whose list is not empty, or nothing. */
    method ReportUnique(only: array<string>)
      requires only.Length == 2
      modifies this
      ensures output == old(output) + UniqueBlock(only[..])
      ensures notsame == old(notsame)
    {
      assert only[..] == [only[0], only[1]];
      UniqueBlockPair(only[0], only[1]);
      if only[0] != "" || only[1] != "" {
        output := output + [UniqueHeadersTitle];
        ghost var titled := output;
        for i := 0 to 2
          invariant output == titled + UniqueLines(only[..i])
          invariant notsame == old(notsame)
        {
          assert only[..i + 1][..i] == only[..i];
          if only[i] != "" {
            output := output + [UniqueHeaders(i, only[i])];
          }
        }
        assert only[..2] == only[..];
        assert output == old(output) + ([UniqueHeadersTitle] + UniqueLines(only[..]));
      }
    }

    /**
     * The body check: `notsame` is overwritten with whether the lengths
     * differ, and `dump` says whether the bodies differ at all.
     */
    method CompareBodies(b0: seq<byte>, b1: seq<byte>) returns (dump: bool)
      modifies this
      ensures output == old(output) + BodyFindings(b0, b1)
      ensures notsame == (|b0| != |b1|)
      ensures dump == (b0 != b1)
    {
      dump := false;
      var lengthsDiffer := Vsi(|b0|, |b1|, BodyLengthsDiffer(|b0|, |b1|));
      if lengthsDiffer {
        dump := true;
      } else if b0 != b1 {
        output := output + [BodiesDiffer];
        dump := true;
      }
    }

    /**
     * The comparison section of main: status, shared headers, unique
     * headers, body. `notsame` ends up saying whether the body lengths
     * differ, whatever came before; `dump` says whether the bodies differ.
     */
    method CompareResponses(r0: Response, r1: Response, exclude: set<string>)
      returns (dump: bool, ghost order: seq<string>, ghost order0: seq<string>, ghost order1: seq<string>)
      modifies this
      ensures IsOrdering(order, r0.header.Keys)
      ensures IsOrdering(order0, r0.header.Keys) && IsOrdering(order1, r1.header.Keys)
      ensures output == old(output) + Comparison(r0, r1, exclude, order, order0, order1)
      ensures notsame == (|r0.body| != |r1.body|)
      ensures dump == (r0.body != r1.body)
    {
      ghost var start := output;
      var _ := Vsi(r0.status, r1.status, StatusDiffers(r0.status, r1.status));
      order := CompareHeaders(r0, r1, exclude);
      ghost var shared := output;

      var only := new string[2](_ => "");
      var names: string;
      names, order0 := UniqueNames(r0.header, r1.header, exclude);
      only[0] := names;
      names, order1 := UniqueNames(r1.header, r0.header, exclude);
      only[1] := names;
      ghost var lists := [SpaceJoin(UniqueSeq(r0.header, r1.header, exclude, order0)),
                          SpaceJoin(UniqueSeq(r1.header, r0.header, exclude, order1))];
      assert only[..] == lists;
      ReportUnique(only);

      dump := CompareBodies(r0.body, r1.body);
      ghost var a, b := StatusFindings(r0.status, r1.status), SharedFindings(r0.header, r1.header, exclude, order);
      ghost var c, d := UniqueBlock(lists), BodyFindings(r0.body, r1.body);
      assert shared == start + a + b;
      assert output == start + a + b + c + d;
      Regroup(start, a, b, c, d);
    }
  }

  /** Printing four blocks after `s` is printing their concatenation. */
  lemma Regroup(s: seq<Finding>, a: seq<Finding>, b: seq<Finding>, c: seq<Finding>, d: seq<Finding>)
    ensures s + a + b + c + d == s + (a + b + c + d)
  {
  }

  /** One side's `only[i]`: the inner loop over that side's headers. */
  method UniqueNames(mine: Headers, other: Headers, exclude: set<string>)
    returns (names: string, ghost order: seq<string>)
    ensures IsOrdering(order, mine.Keys)
    ensures names == SpaceJoin(UniqueSeq(mine, other, exclude, order))
    ensures names == "" <==> forall h :: h in mine && h !in exclude ==> h in other
  {
    names := "";
    order := [];
    var rest := mine.Keys;
    while rest != {}
      invariant rest <= mine.Keys
      invariant forall k :: k in order <==> k in mine && k !in rest
      invariant Distinct(order)
      invariant names == SpaceJoin(UniqueSeq(mine, other, exclude, order))
      decreases rest
    {
      var h :| h in rest;
      OrderStep(order, rest, mine.Keys, h);
      ghost var found := UniqueSeq(mine, other, exclude, order);
      UniqueSeqSnoc(mine, other, exclude, order, h);
      if h !in exclude && h !in other {
        SpaceJoinSnoc(found, h);
        names := names + h + " ";
        assert names == SpaceJoin(found + [h]);
      } else {
        assert found + [] == found;
      }
      assert names == SpaceJoin(UniqueSeq(mine, other, exclude, order + [h]));
      order := order + [h];
      rest := rest - {h};
    }
    var found := UniqueSeq(mine, other, exclude, order);
    UniqueSeqExact(mine, other, exclude, order);
    SpaceJoinEmpty(found);
    assert found != [] ==> found[0] in found;
  }

  // ---------------------------------------------------------------------------
  // The two fetches and main
  // ---------------------------------------------------------------------------

  /**
   * The two goroutines and the wait: slot i receives what fetching the
   * request prepared for the i-th URL gave.
   */
  method Dispatch(s: Settings, extra: map<string, string>, network: (nat, Request) -> Outcome, slots: array<Outcome>)
    returns (ghost sent: seq<Request>)
    requires |s.uris| == 2 && slots.Length == 2
    requires forall k :: k in extra ==> CanonicalHeaderKey(k) == k
    modifies slots
    ensures |sent| == 2
    ensures forall i :: 0 <= i < 2 ==> Prepared(sent[i], s, s.uris[i], extra) && slots[i] == network(i, sent[i])
  {
    sent := [];
    for i := 0 to 2
      invariant |sent| == i
      invariant forall j :: 0 <= j < i ==> Prepared(sent[j], s, s.uris[j], extra) && slots[j] == network(j, sent[j])
    {
      var req := PrepareRequest(s, s.uris[i], extra);
      slots[i] := network(i, req);
      sent := sent + [req];
    }
  }

  /**
   * main from the goroutines on: fetch both URLs, stop with status 2 on any
   * error, compare, and pick the exit status.
   */
  method FetchAndCompare(s: Settings, extra: map<string, string>, exclude: set<string>,
                         network: (nat, Request) -> Outcome, artifactsWritten: bool)
    returns (exit: ExitCode, out: seq<Finding>, ghost sent: seq<Request>, ghost orders: seq<seq<string>>)
    requires |s.uris| == 2
    requires forall k :: k in extra ==> CanonicalHeaderKey(k) == k
    ensures |sent| == 2 && forall i :: 0 <= i < 2 ==> Prepared(sent[i], s, s.uris[i], extra)
    ensures var f0, f1 := network(0, sent[0]), network(1, sent[1]);
      (f0.Failed? || f1.Failed?) ==> exit == Fatal && out == Failures([f0, f1])
    ensures var f0, f1 := network(0, sent[0]), network(1, sent[1]);
      f0.Fetched? && f1.Fetched? ==>
        var r0, r1 := f0.response, f1.response;
        && |orders| == 3
        && IsOrdering(orders[0], r0.header.Keys)
        && IsOrdering(orders[1], r0.header.Keys)
        && IsOrdering(orders[2], r1.header.Keys)
        && out == Comparison(r0, r1, exclude, orders[0], orders[1], orders[2])
        && exit == ExitStatus(|r0.body| != |r1.body|, r0.body != r1.body, artifactsWritten)
  {
    orders := [];
    var session := new Session();
    var slots := new Outcome[2](_ => Failed(""));
    sent := Dispatch(s, extra, network, slots);
    var quit := session.ReportFailures(slots);
    ghost var f0, f1 := network(0, sent[0]), network(1, sent[1]);
    assert slots[..] == [f0, f1];
    if quit {
      assert session.output == Failures([f0, f1]);
      return Fatal, session.output, sent, orders;
    }
    assert f0.Fetched? && f1.Fetched?;
    FailuresNone(slots[..]);
    var dump;
    ghost var order, order0, order1;
    dump, order, order0, order1 := session.CompareResponses(slots[0].response, slots[1].response, exclude);
    orders := [order, order0, order1];
    out := session.output;
    assert out == Comparison(slots[0].response, slots[1].response, exclude, order, order0, order1);
    if dump && !artifactsWritten {
      return Same, out, sent, orders;
    }
    exit := if session.notsame then Different else Same;
  }

  /**
   * main after flag parsing: anything but two URLs is fatal; then read the
   * extra headers (a bad line is fatal), build the exclusion set, and fetch
   * and compare.
   */
  method Run(s: Settings, network: (nat, Request) -> Outcome, artifactsWritten: bool)
    returns (exit: ExitCode, out: seq<Finding>, ghost sent: seq<Request>, ghost orders: seq<seq<string>>)
    ensures |s.uris| != 2 ==> exit == Fatal && out == [NeedTwoUrls]
    ensures var extra := ApplyHeaderLines(map[], HeaderSources(s.header, s.headerLines), 0);
      |s.uris| == 2 && extra.Err? ==> exit == Fatal && out == [BadHeader(extra.error)]
    ensures var extra := ApplyHeaderLines(map[], HeaderSources(s.header, s.headerLines), 0);
      |s.uris| == 2 && extra.Ok? ==>
        && |sent| == 2
        && (forall i :: 0 <= i < 2 ==> Prepared(sent[i], s, s.uris[i], extra.value))
        && var f0, f1 := network(0, sent[0]), network(1, sent[1]);
        && ((f0.Failed? || f1.Failed?) ==> exit == Fatal && out == Failures([f0, f1]))
        && (f0.Fetched? && f1.Fetched? ==>
              var r0, r1 := f0.response, f1.response;
              && |orders| == 3
              && IsOrdering(orders[0], r0.header.Keys)
              && IsOrdering(orders[1], r0.header.Keys)
              && IsOrdering(orders[2], r1.header.Keys)
              && out == Comparison(r0, r1, ExclusionSet(s.ignore), orders[0], orders[1], orders[2])
              && exit == ExitStatus(|r0.body| != |r1.body|, r0.body != r1.body, artifactsWritten))
  {
    sent, orders := [], [];
    if |s.uris| != 2 {
      return Fatal, [NeedTwoUrls], sent, orders;
    }
    var extra := ExtraHeaders(s.header, s.headerLines);
    if extra.Err? {
      return Fatal, [BadHeader(extra.error)], sent, orders;
    }
    ApplyHeaderLinesCanonical(map[], HeaderSources(s.header, s.headerLines), 0);
    var exclude := Exclusions(s.ignore);
    exit, out, sent, orders := FetchAndCompare(s, extra.value, exclude, network, artifactsWritten);
  }

  // ---------------------------------------------------------------------------
  // What the report says, whatever order the maps are visited in
  // ---------------------------------------------------------------------------

  /**
   * The findings about header `h` in the whole report are exactly what `h`
   * alone produces: nothing when it is excluded or missing on either side,
   * one count finding when the counts differ, else one finding per differing
   * position, in position order.
   */
  lemma ComparisonPerHeader(r0: Response, r1: Response, exclude: set<string>,
                            order: seq<string>, order0: seq<string>, order1: seq<string>, h: string)
    requires IsOrdering(order, r0.header.Keys)
    ensures About(Comparison(r0, r1, exclude, order, order0, order1), h) ==
      PairFindings(r0.header, r1.header, exclude, h)
  {
    var only := [SpaceJoin(UniqueSeq(r0.header, r1.header, exclude, order0)),
                 SpaceJoin(UniqueSeq(r1.header, r0.header, exclude, order1))];
    var a := StatusFindings(r0.status, r1.status);
    var c := UniqueBlock(only);
    var d := BodyFindings(r0.body, r1.body);
    AboutNone(a, h);
    UniqueBlockMentionsNothing(only);
    AboutNone(c, h);
    AboutNone(d, h);
    AboutAround(a, SharedFindings(r0.header, r1.header, exclude, order), c, d, h);
    SharedFindingsPerHeader(r0.header, r1.header, exclude, order, h);
  }

  /** Filtering a report whose other parts mention nothing about `h` keeps the part that does. */
  lemma AboutAround(a: seq<Finding>, b: seq<Finding>, c: seq<Finding>, d: seq<Finding>, h: string)
    requires About(a, h) == [] && About(c, h) == [] && About(d, h) == []
    ensures About(a + b + c + d, h) == About(b, h)
  {
    AboutAppend(a + b + c, d, h);
    AboutAppend(a + b, c, h);
    AboutAppend(a, b, h);
  }

  /** The lines under the title are UniqueHeaders lines, each with a non-empty list. */
  lemma {:induction false} UniqueLinesOnly(only: seq<string>)
    ensures forall j :: 0 <= j < |UniqueLines(only)| ==>
      UniqueLines(only)[j].UniqueHeaders? && UniqueLines(only)[j].names != ""
  {
    if only != [] {
      UniqueLinesOnly(only[..|only| - 1]);
    }
  }

  /** The unique-header block holds the title and non-empty UniqueHeaders lines, nothing else. */
  lemma UniqueBlockMentionsNothing(only: seq<string>)
    ensures forall j :: 0 <= j < |UniqueBlock(only)| ==>
      || UniqueBlock(only)[j].UniqueHeadersTitle?
      || (UniqueBlock(only)[j].UniqueHeaders? && UniqueBlock(only)[j].names != "")
  {
    UniqueLinesOnly(only);
  }

  /**
   * The "Unique headers" block: printed exactly when one list is not empty,
   * as the title, then side 0's line, then side 1's, each only when its list
   * is not empty.
   */
  lemma UniqueBlockPair(a: string, b: string)
    ensures UniqueLines([a, b]) ==
      (if a != "" then [UniqueHeaders(0, a)] else []) + (if b != "" then [UniqueHeaders(1, b)] else [])
    ensures UniqueBlock([a, b]) ==
      if a != "" || b != "" then [UniqueHeadersTitle] + UniqueLines([a, b]) else []
    ensures UniqueBlock([a, b]) == [] <==> a == "" && b == ""
  {
    assert [a, b][..1] == [a];
    assert [a][..0] == [];
    assert UniqueLines([a]) == UniqueLines([]) + (if a != "" then [UniqueHeaders(0, a)] else []);
  }

  /** A side compared with a side that has all its headers lists none as unique. */
  lemma {:induction false} UniqueSeqOfSame(h: Headers, exclude: set<string>, order: seq<string>)
    ensures UniqueSeq(h, h, exclude, order) == []
  {
    if order != [] {
      UniqueSeqOfSame(h, exclude, order[..|order| - 1]);
    }
  }

  /** Two identical responses give an empty report, in any order of visiting the headers. */
  lemma ComparisonOfSame(r: Response, exclude: set<string>,
                         order: seq<string>, order0: seq<string>, order1: seq<string>)
    ensures Comparison(r, r, exclude, order, order0, order1) == []
  {
    SharedFindingsOfSame(r.header, exclude, order);
    UniqueSeqOfSame(r.header, exclude, order0);
    UniqueSeqOfSame(r.header, exclude, order1);
    UniqueBlockPair("", "");
  }

  /**
   * `notsame` is overwritten, not accumulated: a run whose responses differ
   * only in their status code prints that difference and still exits 0.
   */
  lemma StatusAloneExitsZero(r0: Response, r1: Response, exclude: set<string>,
                             order: seq<string>, order0: seq<string>, order1: seq<string>, artifactsWritten: bool)
    requires r0.status != r1.status && r0.header == r1.header && r0.body == r1.body
    ensures Comparison(r0, r1, exclude, order, order0, order1) == [StatusDiffers(r0.status, r1.status)]
    ensures ExitStatus(|r0.body| != |r1.body|, r0.body != r1.body, artifactsWritten) == Same
  {
    SharedFindingsOfSame(r0.header, exclude, order);
    UniqueSeqOfSame(r0.header, exclude, order0);
    UniqueSeqOfSame(r0.header, exclude, order1);
    UniqueBlockPair("", "");
  }

  /**
   * The exit status is 1 exactly when the body lengths differ and the bodies
   * were written out; every other difference leaves it at 0.
   */
  lemma ExitFollowsBodyLengths(b0: seq<byte>, b1: seq<byte>, artifactsWritten: bool)
    ensures ExitStatus(|b0| != |b1|, b0 != b1, artifactsWritten) == Different
      <==> |b0| != |b1| && artifactsWritten
  {
    if |b0| != |b1| {
      assert b0 != b1;
    }
  }

  /** Side 0 of the examples: header X-A only. */
  function ExampleSide0(): Response {
    Response(200, map["X-A" := ["1"]], [])
  }

  /** Side 1 of the examples: header X-B only. */
  function ExampleSide1(): Response {
    Response(200, map["X-B" := ["2"]], [])
  }

  /** One header on each side only: the block lists each under its own side after its title, and nothing else is printed. */
  lemma UniqueHeadersExample(order: seq<string>, order0: seq<string>, order1: seq<string>)
    requires IsOrdering(order, {"X-A"}) && IsOrdering(order0, {"X-A"}) && IsOrdering(order1, {"X-B"})
    ensures Comparison(ExampleSide0(), ExampleSide1(), {}, order, order0, order1)
      == [UniqueHeadersTitle, UniqueHeaders(0, "X-A "), UniqueHeaders(1, "X-B ")]
  {
    OrderingOfSingleton(order, "X-A");
    OrderingOfSingleton(order0, "X-A");
    OrderingOfSingleton(order1, "X-B");
    var r0, r1 := ExampleSide0(), ExampleSide1();
    assert SharedFindings(r0.header, r1.header, {}, order) == [];
    assert UniqueSeq(r0.header, r1.header, {}, order0) == ["X-A"];
    assert UniqueSeq(r1.header, r0.header, {}, order1) == ["X-B"];
    assert SpaceJoin(["X-A"]) == "X-A ";
    assert SpaceJoin(["X-B"]) == "X-B ";
    UniqueBlockPair("X-A ", "X-B ");
  }

  /** The same two responses with X-B excluded: only side 0's line is left. */
  lemma ExcludedUniqueHeaderExample(order: seq<string>, order0: seq<string>, order1: seq<string>)
    requires IsOrdering(order, {"X-A"}) && IsOrdering(order0, {"X-A"}) && IsOrdering(order1, {"X-B"})
    ensures Comparison(ExampleSide0(), ExampleSide1(), {"X-B"}, order, order0, order1)
      == [UniqueHeadersTitle, UniqueHeaders(0, "X-A ")]
  {
    OrderingOfSingleton(order, "X-A");
    OrderingOfSingleton(order0, "X-A");
    OrderingOfSingleton(order1, "X-B");
    var r0, r1 := ExampleSide0(), ExampleSide1();
    assert SharedFindings(r0.header, r1.header, {"X-B"}, order) == [];
    assert UniqueSeq(r0.header, r1.header, {"X-B"}, order0) == ["X-A"];
    assert UniqueSeq(r1.header, r0.header, {"X-B"}, order1) == [];
    assert SpaceJoin(["X-A"]) == "X-A ";
    UniqueBlockPair("X-A ", "");
  }

  /** Upper, lower or mixed case, POST and PUT carry the body; other methods do not. */
  lemma PayloadMethodExamples()
    ensures IsPayloadMethod("POST") && IsPayloadMethod("post") && IsPayloadMethod("Put")
    ensures !IsPayloadMethod("GET") && !IsPayloadMethod("POSTS") && !IsPayloadMethod("PATCH")
  {
    assert FoldChar("PUT"[0]) != FoldChar("GET"[0]);
  }
}
