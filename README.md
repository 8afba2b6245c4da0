# httpdiff in Dafny

httpdiff sends the same HTTP request to two URLs and reports every way the
two responses differ: the status code, the headers both responses carry,
the headers only one of them carries, and the body. The repository holds
two versions of the tool, and this project models the core of both:

- `httpdiff.go` (module `HttpDiff`, file `httpdiff.dfy`) is the current version. It reads extra
  request headers from `-header` and a headers file with `parseHeader`. It builds
  the request (body for POST and PUT, Host override, User-Agent, extra
  headers) and fetches both URLs. Any fetch error stops it with status 2.
  It then compares status, shared headers (minus the `-ignore` set), unique
  headers and bodies. Finally it exits with the global `notsame` flag.
- `src/httpdiff/httpdiff.go` (module `SrcHttpDiff`, file `src_httpdiff.dfy`) is the first version.
  It sends no body and no extra headers and has no exclusion set. It reports
  each unique header on a line of its own and compares equal-length bodies
  by their MD5 sums.

The supporting modules model the pieces of Go's library that the two
versions call:

- `Strings` (`strings.dfy`) covers `strings.TrimSpace`, `strings.EqualFold`,
  `strings.SplitN(s, ":", 2)` and `strings.Split`.
- `Http` (`http.dfy`) covers `http.CanonicalHeaderKey` and `Header.Add`, and
  defines the request and response records.
- `Diff` (`diff.dfy`) defines the findings both versions print and the
  per-header comparison they share.
- `Wrappers` (`wrappers.dfy`) holds `Option` and `Result`.

Each line that reports a difference or stops the run is a `Finding`
value, and so is the "Unique headers" title above the unique-header lines
(`UniqueHeadersTitle`). The program's output is the sequence of findings
in print order. The progress lines and the lines about temporary files and
the diff program are not findings; "## Left out" lists them.

Go visits map keys in an unspecified order. Each loop over a map picks its
next key with `:|` and returns the order it used as a ghost sequence,
proved to list every key exactly once (`IsOrdering`). The output is stated
as a function of that order. Lemmas such as `SharedFindingsPerHeader` and
`ComparisonPerHeader` then state what holds in every order: the findings
about one header.

The global `notsame` of the current version is a field of the class
`Session`, next to the output printed so far. `vs` and `vsi` overwrite the
flag; they do not accumulate it. The body-length `vsi` runs last, so the exit status is 1 exactly
when the body lengths differ and the bodies could be written out for
inspection. A run that differs only in status or headers exits 0
(`StatusAloneExitsZero`). The model keeps this behaviour as the code has
it. It does not keep the "differences found" exit status that a reading of
the tool's purpose would suggest.

The network is a function parameter `network: (nat, Request) -> Outcome`
that maps the slot (0 or 1) and its request to that fetch's outcome, so two
fetches of the same URL may still see different responses. An outcome is either a response
(status, header multimap, body) or an error message. MD5 is a parameter
`md5` of the first version's comparison.

## Model

| member | source | states |
|---|---|---|
| Strings.TrimSpace | httpdiff.go:104 | the result cuts only white space from either end and neither starts nor ends with white space |
| Strings.TrimSpaceIdempotent | httpdiff.go:104 | trimming a trimmed string changes nothing |
| Strings.SplitAtFirst | httpdiff.go:98 | None exactly when the separator is absent; otherwise the string is before + sep + after with no separator in before |
| Strings.SplitAtFirstUnique | httpdiff.go:98 | any cut at a separator with none before it is the one SplitN(s, sep, 2) makes |
| Strings.Split | httpdiff.go:163 | the pieces hold no separator and joined with it give back the string; never an empty list |
| Strings.EqualFold | httpdiff.go:66 | equal-fold strings have the same length; on ASCII strings they are equal-fold exactly when their lower-case forms are equal |
| Http.CanonicalHeaderKey | httpdiff.go:166 | same length; a non-token name is unchanged; a token name becomes a canonical token name; only ASCII case changes |
| Http.CanonicalFixesCanonical | httpdiff.go:104 | a name already canonical is returned as it is |
| Http.CanonicalIdempotent | httpdiff.go:104 | canonicalising twice equals canonicalising once |
| Http.CanonicalIgnoresCase | httpdiff.go:166 | two spellings of a token name that differ only in ASCII case have the same canonical key |
| Http.Add | httpdiff.go:82 | the names after Header.Add are the old names plus the canonical key; every other name keeps its values |
| Http.AddAppends | httpdiff.go:82 | the value is appended after any values already filed under the canonical key |
| Http.RequestMethod | httpdiff.go:67-69 | the request method is never empty: an empty method becomes GET and any other is kept |
| Diff.Failures | httpdiff.go:193-200 | every reported failure names a slot that failed, with that slot's message |
| Diff.FailuresCover | httpdiff.go:194-199 | every failing slot is reported with its message |
| Diff.FailuresNone | httpdiff.go:193-204 | when both fetches succeeded nothing is reported |
| Diff.FailuresOrdered | httpdiff.go:194-199 | failures are reported in slot order, each slot once |
| Diff.ValueFindings | httpdiff.go:219-222 | every value finding is about a position where the two values differ and carries both values |
| Diff.ValueFindingsCover | httpdiff.go:219-222 | every position whose values differ gets its finding |
| Diff.ValueFindingsOrdered | httpdiff.go:219-222 | the value findings come in position order, each position once |
| Diff.SharedFindingsPerHeader | httpdiff.go:208-224 | whatever the key order, the findings about header h are what h alone gives: none if excluded or missing on a side, one count finding if the counts differ, else the value findings |
| Diff.SameValuesNoFindings | httpdiff.go:219-222 | equal value lists give no value finding |
| Diff.SharedFindingsOfSame | httpdiff.go:208-224 | a header multimap compared with itself gives no finding, in any key order |
| HttpDiff.ParseHeader | httpdiff.go:97-105 | the line is rejected exactly when it holds no colon |
| HttpDiff.ParseHeaderCanonical | httpdiff.go:104 | every earlier name stays, and the entry added is filed under a canonical name |
| HttpDiff.ParseHeaderAtFirstColon | httpdiff.go:98-104 | the cut is at the first colon: later colons stay in the value, both parts are trimmed, the name canonicalised, an existing entry of that name overwritten and the others kept |
| HttpDiff.ApplyHeaderLinesStopsAtFirstBad | httpdiff.go:136-150 | the first line without a colon is the one reported, whatever follows |
| HttpDiff.ApplyHeaderLinesCanonical | httpdiff.go:134-158 | all names in the extra-header map are canonical |
| HttpDiff.ApplyHeaderLinesSucceeds | httpdiff.go:136-150 | lines that all hold a colon are all accepted |
| HttpDiff.ExtraHeaders | httpdiff.go:134-158 | the loop gives what parseHeader over the -header line then the file's lines gives, starting from an empty map; the first line without a colon is reported |
| HttpDiff.ApplyLines | httpdiff.go:136-150 | the loop calling the line parser on each line in order gives the fold of that parser over the lines, stopping at the first rejected line |
| HttpDiff.Exclusions | httpdiff.go:160-168 | the exclusion set is the canonical form of each comma-separated item, empty when -ignore is empty |
| HttpDiff.ExclusionIgnoresCase | httpdiff.go:162-166 | an item in any ASCII case excludes the canonical response header of that name |
| HttpDiff.IsPayloadMethod | httpdiff.go:66 | a method carries the body only if it has three or four letters; for an ASCII method, exactly when it is POST or PUT in any case |
| HttpDiff.PrepareRequest | httpdiff.go:63-83 | an empty method becomes GET; body exactly for POST and PUT in any case, Host only when set, User-Agent exactly [agent] when set, each extra value after any existing value of its name, nothing else |
| HttpDiff.BuildHeader | httpdiff.go:78-83 | the header after the User-Agent replacement and Header.Add of every extra header, in whatever map order |
| HttpDiff.HeaderAfterStep | httpdiff.go:81-83 | Header.Add of one more extra header extends the prepared header by that name and value |
| HttpDiff.PreparedDiffersOnlyInTarget | httpdiff.go:183-188 | the two requests of a run differ only in their URL |
| HttpDiff.UniqueSeqExact | httpdiff.go:228-239 | the names listed in only[i] are distinct, and they are exactly the non-excluded names of side i absent from side 1-i |
| HttpDiff.SpaceJoinEmpty | httpdiff.go:235-236 | only[i] is empty exactly when no name was appended |
| HttpDiff.Session.constructor | httpdiff.go:23 | notsame starts false and nothing is printed |
| HttpDiff.Session.Vs | httpdiff.go:43-50 | notsame is overwritten with whether the strings differ and returned; a finding is printed exactly then |
| HttpDiff.Session.Vsi | httpdiff.go:51-58 | the same for integers |
| HttpDiff.Session.ReportFailures | httpdiff.go:193-200 | quit exactly when a slot failed; each failure printed in slot order; notsame unchanged |
| HttpDiff.Session.CompareHeader | httpdiff.go:217-223 | prints a count finding alone when the counts differ, else the value findings; notsame ends up as whether the counts differ or, when they are equal, whether the last values differ |
| HttpDiff.Session.CompareHeaders | httpdiff.go:208-224 | visits every key of side 0 once, comparing exactly the non-excluded headers side 1 also has; notsame ends up as the result of the last header compared, or unchanged when none was |
| HttpDiff.Session.ReportUnique | httpdiff.go:241-248 | when a list is not empty, prints the title and then a line for each non-empty list, in side order; nothing when both are empty |
| HttpDiff.NotSameAfterReported | httpdiff.go:208-224 | when the header loop leaves notsame set from a start of false, it printed at least one finding |
| HttpDiff.HeaderNotSameReported | httpdiff.go:217-223 | a header whose comparison sets notsame has at least one finding |
| HttpDiff.Session.CompareBodies | httpdiff.go:250-258 | a length finding alone, else a content finding, else nothing; notsame says whether the lengths differ; dump whether the bodies differ |
| HttpDiff.Session.CompareResponses | httpdiff.go:206-258 | prints status, shared-header, unique-header and body findings in that order; notsame ends up as whether the body lengths differ |
| HttpDiff.UniqueNames | httpdiff.go:228-239 | only[i] lists side i's unique names, each followed by a space, and is empty exactly when every non-excluded name is on side 1-i |
| HttpDiff.Dispatch | httpdiff.go:178-191 | both slots are filled, slot i with the outcome the network gives slot i for the request prepared for URL i |
| HttpDiff.FetchAndCompare | httpdiff.go:178-293 | each slot's outcome is the network's for that slot and its request; any failed fetch gives exit 2 with the failures printed and no comparison; otherwise the comparison is printed and the exit status follows notsame and the body dump |
| HttpDiff.Run | httpdiff.go:129-293 | not two URLs, or a header line without a colon, gives exit 2 with its message; otherwise each slot's outcome is the network's for that slot and its request, and the requests, the report and the exit status are as above with the exclusion set built from -ignore |
| HttpDiff.ComparisonPerHeader | httpdiff.go:206-258 | whatever the map orders, the count and value findings about header h in the whole report are exactly what h alone gives |
| HttpDiff.ExitStatus | httpdiff.go:260-293 | never the fatal status; 1 exactly when notsame is set and either nothing was dumped or both bodies were written out, else 0 |
| HttpDiff.UniqueBlockMentionsNothing | httpdiff.go:241-248 | the unique block holds only its title and non-empty UniqueHeaders lines |
| HttpDiff.UniqueLinesOnly | httpdiff.go:242-247 | the lines under the title are all non-empty UniqueHeaders lines |
| HttpDiff.UniqueBlockPair | httpdiff.go:241-248 | the title, then side 0's line then side 1's, each when its list is not empty; the block is empty exactly when both lists are |
| HttpDiff.UniqueSeqOfSame | httpdiff.go:228-239 | a side compared with itself lists no unique name |
| HttpDiff.ComparisonOfSame | httpdiff.go:206-258 | two identical responses give an empty report in any key order |
| HttpDiff.StatusAloneExitsZero | httpdiff.go:206-293 | a status-only difference is printed, and the exit status is still 0 because notsame is overwritten |
| HttpDiff.ExitFollowsBodyLengths | httpdiff.go:250-293 | the exit status is 1 exactly when the body lengths differ and the bodies were written out |
| HttpDiff.UniqueHeadersExample | httpdiff.go:226-248 | X-A only on side 0 and X-B only on side 1 give exactly the title and the two lines "X-A " and "X-B " |
| HttpDiff.ExcludedUniqueHeaderExample | httpdiff.go:229-231 | with X-B excluded only the title and side 0's line are printed |
| HttpDiff.PayloadMethodExamples | httpdiff.go:66 | POST, post and Put carry the body; GET, POSTS and PATCH do not |
| SrcHttpDiff.PrepareRequest | src/httpdiff/httpdiff.go:35-42 | an empty method becomes GET; never a body, no headers, the Host override only when set |
| SrcHttpDiff.BuiltAsInNewerVersion | src/httpdiff/httpdiff.go:35-42 | for a method other than POST and PUT with no agent and no extra headers, both versions build the same request |
| SrcHttpDiff.PayloadOnlyInNewerVersion | src/httpdiff/httpdiff.go:36 | for POST and PUT the first version's request is not the newer version's |
| SrcHttpDiff.Dispatch | src/httpdiff/httpdiff.go:72-80 | both slots are filled, slot i with the outcome the network gives slot i for the request built for URL i |
| SrcHttpDiff.ReportFailures | src/httpdiff/httpdiff.go:82-89 | quit exactly when a slot failed; each failure reported in slot order |
| SrcHttpDiff.UniqueFindingsExact | src/httpdiff/httpdiff.go:120-134 | a "has header" line is printed for exactly the headers of that side the other lacks; a shared header never |
| SrcHttpDiff.UniqueFindingsOnce | src/httpdiff/httpdiff.go:120-134 | each such header is printed once |
| SrcHttpDiff.BodyFindingsByDigest | src/httpdiff/httpdiff.go:136-145 | byte-identical bodies are never reported; with a collision-free digest the check equals a byte comparison |
| SrcHttpDiff.CompareHeader | src/httpdiff/httpdiff.go:103-115 | a count finding alone when the counts differ, else the value findings |
| SrcHttpDiff.CompareShared | src/httpdiff/httpdiff.go:100-117 | visits every key of side 0 once, comparing exactly the headers side 1 also has; in any order, the findings about each header h are exactly what h alone gives |
| SrcHttpDiff.ListUnique | src/httpdiff/httpdiff.go:120-134 | visits every key of the side once; in any order, the lines printed are exactly one per header of that side the other lacks |
| SrcHttpDiff.Compare | src/httpdiff/httpdiff.go:95-145 | status, shared headers, side 0's unique headers, side 1's, body, in that order; in any key order, the count and value findings about each header are what it alone gives |
| SrcHttpDiff.Run | src/httpdiff/httpdiff.go:60-145 | not two URLs stops with its message; each slot's outcome is the network's for that slot and its request; a failed fetch prints the failures and nothing else; otherwise the comparison follows |
| SrcHttpDiff.UniqueFindingsMentionNothing | src/httpdiff/httpdiff.go:120-134 | the unique lines carry no count or value finding |
| SrcHttpDiff.ComparisonPerHeader | src/httpdiff/httpdiff.go:100-134 | the count and value findings about header h are exactly what h alone gives, and none when side 1 lacks h |
| SrcHttpDiff.UniqueFindingsOfSame | src/httpdiff/httpdiff.go:120-134 | a side compared with itself lists no unique header |
| SrcHttpDiff.ComparisonOfSame | src/httpdiff/httpdiff.go:95-145 | two identical responses give an empty report in any key order |

## Left out

- Goroutines and `sync.WaitGroup`: the two fetches are made one after the other, since the join waits for both anyway.
- Network I/O: `transport.RoundTrip`, `client.Do`, `ioutil.ReadAll` and closing the body are the parameter `network`. An `http.NewRequest` error is one more failed outcome of that function.
- Flag parsing, `-help`, `-mono`, `-insecure` and the TLS setup: the parsed values arrive as `Settings`.
- Opening and scanning the headers file: its lines arrive as `Settings.headerLines`. Open and read errors (exit 2) are not modelled.
- ANSI colour, mono output and the text of each line: findings are values. The Finding index of a line stands for its `on(i, ...)` colour.
- The "Set Host" and "Doing" lines (httpdiff.go:170-173): progress lines, not findings, so the output sequence has no value for them. The "Doing" `vs` also writes `notsame`, but the status `vsi` overwrites that value before anyone reads it.
- Temporary files and `-diffapp`: only whether both bodies were written out is kept, as the parameter `artifactsWritten`, because a failure there returns from main with status 0.
- `md5.Sum`: the parameter `md5` of the first version's comparison.
- Strings.EqualFold: only the case-folding orbits that contain an ASCII letter are modelled, which is exact whenever one operand is ASCII, as with "POST" and "PUT".
- A header present with an empty value slice: Go treats only a nil slice as absent; the model has only present or absent names.
- The first version's exit status: it never calls `os.Exit`, so it always exits 0, and its `Run` returns no status.
- The first version's "Doing" line (src/httpdiff/httpdiff.go:67): a progress line, not a finding, so the output sequence has no value for it.
- The "Wrote body", temporary-file error and diff-program lines (httpdiff.go:263-285): they belong to the temporary files and `-diffapp`, left out above.
- The first version's "Must specify two URIs to test" line is the same `NeedTwoUrls` finding as the newer version's "URLs" line.
