/**
 * The pieces of Go's net/http that httpdiff relies on: requests, responses
 * with their header multimap, http.CanonicalHeaderKey and Header.Add.
 */
module Http {
  import opened Wrappers
  import opened Strings

  newtype byte = x: int | 0 <= x < 256

  /** http.Header: canonical header name to the values in arrival order. */
  type Headers = map<string, seq<string>>

  /** What one fetch produced: status code, header multimap and the whole body. */
  datatype Response = Response(status: int, header: Headers, body: seq<byte>)

  /**
   * The result of one call of `do`: a response with its body, or the error
   * that http.NewRequest, the round trip or reading the body returned.
   */
  datatype Outcome = Fetched(response: Response) | Failed(message: string)

  /**
   * An outgoing request; `verb` is the HTTP method. `host` is the Host override; None sends the
   * authority of `uri`. `payload` is the request body, if one is attached.
   */
  datatype Request = Request(
    verb: string,
    uri: string,
    payload: Option<string>,
    host: Option<string>,
    header: Headers)

  const UserAgent: string := "User-Agent"

  // ---------------------------------------------------------------------------
  // http.CanonicalHeaderKey
  // ---------------------------------------------------------------------------

  /** A byte allowed in a header field name (an RFC 7230 token character). */
  predicate IsTokenChar(c: char) {
    || ('a' <= c <= 'z') || ('A' <= c <= 'Z') || ('0' <= c <= '9')
    || c in "!#$%&'*+-.^_`|~"
  }

  predicate IsToken(s: string) {
    forall i :: 0 <= i < |s| ==> IsTokenChar(s[i])
  }

  /** Whether position `i` of `s` starts a word: the first one or one after '-'. */
  predicate StartsWord(s: string, i: int)
    requires 0 <= i < |s|
  {
    i == 0 || s[i - 1] == '-'
  }

  /** Canonical form: a word starts with no lower-case letter and goes on with no upper-case one. */
  predicate IsCanonical(s: string) {
    forall i :: 0 <= i < |s| ==>
      if StartsWord(s, i) then !('a' <= s[i] <= 'z') else !('A' <= s[i] <= 'Z')
  }

  /** One character of the rewrite: upper case at a word start, lower case elsewhere. */
  function CanonChar(c: char, upper: bool): char {
    if upper && 'a' <= c <= 'z' then (c as int - 32) as char
    else if !upper then LowerAscii(c)
    else c
  }

  /** The rewrite loop; `upper` says whether the previous character written was '-'. */
  function CanonFrom(s: string, upper: bool): (r: string)
    ensures |r| == |s|
    ensures forall i :: 0 <= i < |s| ==>
      r[i] == CanonChar(s[i], if i == 0 then upper else s[i - 1] == '-')
  {
    if s == [] then []
    else
      var c := CanonChar(s[0], upper);
      [c] + CanonFrom(s[1..], c == '-')
  }

  /**
   * http.CanonicalHeaderKey: a name made of token characters only is
   * rewritten to canonical form; any other name is returned unchanged.
   */
  function CanonicalHeaderKey(s: string): (r: string)
    ensures |r| == |s|
    ensures !IsToken(s) ==> r == s
    ensures IsToken(s) ==> IsToken(r) && IsCanonical(r)
    ensures forall i :: 0 <= i < |s| ==> LowerAscii(r[i]) == LowerAscii(s[i])
  {
    if IsToken(s) then
      CanonFromCanonical(s);
      CanonFrom(s, true)
    else s
  }

  /** One rewritten character: still a token character, '-' exactly when it was, cased as asked. */
  lemma CanonCharFacts(c: char, upper: bool)
    requires IsTokenChar(c)
    ensures IsTokenChar(CanonChar(c, upper))
    ensures CanonChar(c, upper) == '-' <==> c == '-'
    ensures upper ==> !('a' <= CanonChar(c, upper) <= 'z')
    ensures !upper ==> !('A' <= CanonChar(c, upper) <= 'Z')
    ensures LowerAscii(CanonChar(c, upper)) == LowerAscii(c)
  {
  }

  /** The rewrite of a token name is a token name in canonical form. */
  lemma CanonFromCanonical(s: string)
    requires IsToken(s)
    ensures IsToken(CanonFrom(s, true)) && IsCanonical(CanonFrom(s, true))
    ensures forall i :: 0 <= i < |s| ==> LowerAscii(CanonFrom(s, true)[i]) == LowerAscii(s[i])
  {
    var r := CanonFrom(s, true);
    forall i | 0 <= i < |s|
      ensures IsTokenChar(r[i]) && LowerAscii(r[i]) == LowerAscii(s[i])
      ensures if StartsWord(r, i) then !('a' <= r[i] <= 'z') else !('A' <= r[i] <= 'Z')
    {
      var u := if i == 0 then true else s[i - 1] == '-';
      CanonCharFacts(s[i], u);
      if i > 0 {
        CanonCharFacts(s[i - 1], if i - 1 == 0 then true else s[i - 2] == '-');
        assert r[i - 1] == '-' <==> s[i - 1] == '-';
      }
    }
  }

  /** A name already in canonical form is left as it is. */
  lemma CanonicalFixesCanonical(s: string)
    requires IsToken(s) && IsCanonical(s)
    ensures CanonicalHeaderKey(s) == s
  {
    var r := CanonFrom(s, true);
    forall i | 0 <= i < |s|
      ensures r[i] == s[i]
    {
      assert StartsWord(s, i) <==> (if i == 0 then true else s[i - 1] == '-');
    }
  }

  /** Canonicalising twice changes nothing more. */
  lemma CanonicalIdempotent(s: string)
    ensures CanonicalHeaderKey(CanonicalHeaderKey(s)) == CanonicalHeaderKey(s)
  {
    if IsToken(s) {
      CanonicalFixesCanonical(CanonicalHeaderKey(s));
    }
  }

  /**
   * Canonicalisation ignores ASCII case: two spellings of a token name that
   * differ only in the case of letters have the same canonical key.
   */
  lemma CanonicalIgnoresCase(s: string, t: string)
    requires IsToken(s)
    requires |s| == |t| && forall i :: 0 <= i < |s| ==> LowerAscii(s[i]) == LowerAscii(t[i])
    ensures CanonicalHeaderKey(s) == CanonicalHeaderKey(t)
  {
    forall i | 0 <= i < |t|
      ensures IsTokenChar(t[i])
    {
      CanonCharIgnoresCase(s[i], t[i], true);
    }
    var a, b := CanonFrom(s, true), CanonFrom(t, true);
    forall i | 0 <= i < |s|
      ensures a[i] == b[i]
    {
      if i > 0 {
        CanonCharIgnoresCase(s[i - 1], t[i - 1], true);
      }
      CanonCharIgnoresCase(s[i], t[i], if i == 0 then true else s[i - 1] == '-');
    }
  }

  /** Two spellings of a token character that differ only in case are rewritten alike. */
  lemma CanonCharIgnoresCase(c: char, d: char, upper: bool)
    requires IsTokenChar(c) && LowerAscii(c) == LowerAscii(d)
    ensures IsTokenChar(d) && (c == '-' <==> d == '-')
    ensures CanonChar(c, upper) == CanonChar(d, upper)
  {
  }

  /**
   * Header.Add: appends `value` to the values of the canonical form of `key`;
   * every other name keeps its values.
   */
  function Add(h: Headers, key: string, value: string): (r: Headers)
    ensures r.Keys == h.Keys + {CanonicalHeaderKey(key)}
    ensures forall k :: k in h && k != CanonicalHeaderKey(key) ==> r[k] == h[k]
  {
    var k := CanonicalHeaderKey(key);
    h[k := (if k in h then h[k] else []) + [value]]
  }

  /** Header.Add puts `value` after the values already filed under the canonical name. */
  lemma AddAppends(h: Headers, key: string, value: string)
    ensures var k := CanonicalHeaderKey(key);
      Add(h, key, value)[k] == (if k in h then h[k] else []) + [value]
  {
  }

  /** The method http.NewRequest puts on the request: an empty one means GET. */
  function RequestMethod(verb: string): (r: string)
    ensures r != ""
    ensures verb != "" ==> r == verb
  {
    if verb == "" then "GET" else verb
  }
}
