/** `Revactor::HttpResponse` and the redirect rule of
    `Revactor::HttpClient.request` (lib/revactor/http_client.rb).  What the
    network and the URI library supply (each request's outcome, each
    `read_body` result) comes in as an oracle. */
module Http {
  import opened Base
  import opened Values

  // ---------------------------------------------------------------------
  // Header names: `k.split('_').map(&:downcase).join('-')`
  // ---------------------------------------------------------------------

  /** ASCII `downcase` of one character. */
  function Lower(c: char): (r: char)
    ensures !('A' <= r <= 'Z')
    ensures c != '_' && c != '-' ==> r != '_' && r != '-'
    ensures c == '-' ==> r == '-'
    ensures 'A' <= c <= 'Z' ==> r as int == c as int + 32
    ensures !('A' <= c <= 'Z') ==> r == c
  {
    if 'A' <= c <= 'Z' then (c as int + 32) as char else c
  }

  function Downcase(s: string): (r: string)
    ensures |r| == |s| && forall i :: 0 <= i < |s| ==> r[i] == Lower(s[i])
  {
    seq(|s|, i requires 0 <= i < |s| => Lower(s[i]))
  }

  function DowncaseAll(fs: seq<string>): (r: seq<string>)
    ensures |r| == |fs| && forall i :: 0 <= i < |fs| ==> r[i] == Downcase(fs[i])
  {
    seq(|fs|, i requires 0 <= i < |fs| => Downcase(fs[i]))
  }

  /** The fields of s between separators, empty ones included. */
  function Fields(s: string, sep: char): (r: seq<string>)
    ensures |r| >= 1
  {
    if s == [] then [[]]
    else
      var f := Fields(s[..|s| - 1], sep);
      var x := s[|s| - 1];
      if x == sep then f + [[]] else f[..|f| - 1] + [f[|f| - 1] + [x]]
  }

  /** Drop trailing empty fields, as `split` without a limit does. */
  function TrimEmpty(fs: seq<string>): seq<string> {
    if fs != [] && fs[|fs| - 1] == [] then TrimEmpty(fs[..|fs| - 1]) else fs
  }

  /** `s.split(sep)` for a one-character separator. */
  function Split(s: string, sep: char): seq<string> {
    TrimEmpty(Fields(s, sep))
  }

  /** `parts.join(sep)`. */
  function Join(parts: seq<string>, sep: char): string {
    if parts == [] then []
    else if |parts| == 1 then parts[0]
    else Join(parts[..|parts| - 1], sep) + [sep] + parts[|parts| - 1]
  }

  /** The header-name conversion of `HttpResponse#initialize`. */
  function NormalizeName(k: string): string {
    Join(DowncaseAll(Split(k, '_')), '-')
  }

  /** The reference reading of the conversion: every `_` becomes `-`,
      every capital its lower case, after dropping the trailing `_`s. */
  function TrimRight(s: string, c: char): string {
    if s != [] && s[|s| - 1] == c then TrimRight(s[..|s| - 1], c) else s
  }

  function Translate(s: string): (r: string)
    ensures |r| == |s|
  {
    seq(|s|, i requires 0 <= i < |s| => if s[i] == '_' then '-' else Lower(s[i]))
  }

  lemma TranslateSnoc(t: string, x: char)
    ensures Translate(t + [x]) == Translate(t) + [if x == '_' then '-' else Lower(x)]
  {
  }

  lemma DowncaseSnoc(t: string, x: char)
    ensures Downcase(t + [x]) == Downcase(t) + [Lower(x)]
  {
  }

  /** Appending a separator to s adds an empty last field. */
  lemma JoinEmptyField(d: seq<string>)
    requires |d| >= 1
    ensures Join(d + [[]], '-') == Join(d, '-') + ['-']
  {
    assert (d + [[]])[..|d|] == d;
  }

  /** Appending any other character extends the last field. */
  lemma JoinExtendField(d: seq<string>, y: char)
    requires |d| >= 1
    ensures Join(d[..|d| - 1] + [d[|d| - 1] + [y]], '-') == Join(d, '-') + [y]
  {
    var e := d[..|d| - 1] + [d[|d| - 1] + [y]];
    assert e[..|e| - 1] == d[..|d| - 1];
    if |d| > 1 {
      assert Join(e, '-') == Join(d[..|d| - 1], '-') + ['-'] + (d[|d| - 1] + [y]);
    }
  }

  /** Joining the downcased fields with `-` translates the whole string. */
  lemma {:induction false} JoinFields(s: string)
    ensures Join(DowncaseAll(Fields(s, '_')), '-') == Translate(s)
  {
    if s != [] {
      var s' := s[..|s| - 1];
      var x := s[|s| - 1];
      assert s == s' + [x];
      JoinFields(s');
      TranslateSnoc(s', x);
      var f := Fields(s', '_');
      var d := DowncaseAll(f);
      var n := |f|;
      if x == '_' {
        assert DowncaseAll(f + [[]]) == d + [[]];
        JoinEmptyField(d);
      } else {
        DowncaseSnoc(f[n - 1], x);
        assert DowncaseAll(f[..n - 1] + [f[n - 1] + [x]]) == d[..n - 1] + [d[n - 1] + [Lower(x)]];
        JoinExtendField(d, Lower(x));
      }
    }
  }

  /** The field after the last separator is non-empty when s does not end
      in the separator. */
  lemma LastFieldNonEmpty(s: string, sep: char)
    requires s != [] && s[|s| - 1] != sep
    ensures Fields(s, sep)[|Fields(s, sep)| - 1] != []
  {
  }

  /** `NormalizeName` agrees with the reference reading. */
  lemma {:induction false} NormalizeNameIsTranslate(k: string)
    ensures NormalizeName(k) == Translate(TrimRight(k, '_'))
  {
    if k == [] {
      assert Split(k, '_') == [];
    } else if k[|k| - 1] == '_' {
      var k' := k[..|k| - 1];
      NormalizeNameIsTranslate(k');
      assert Fields(k, '_') == Fields(k', '_') + [[]];
      assert TrimEmpty(Fields(k, '_')) == TrimEmpty(Fields(k', '_'));
    } else {
      LastFieldNonEmpty(k, '_');
      JoinFields(k);
    }
  }

  /** Normalised names hold no capital letter and no `_`, and are no
      longer than the raw name. */
  lemma NormalizedShape(k: string)
    ensures var n := NormalizeName(k);
            |n| <= |k| && forall i :: 0 <= i < |n| ==> !('A' <= n[i] <= 'Z') && n[i] != '_'
  {
    NormalizeNameIsTranslate(k);
    TrimRightShorter(k, '_');
  }

  lemma {:induction false} TrimRightShorter(s: string, c: char)
    ensures |TrimRight(s, c)| <= |s|
  {
    if s != [] && s[|s| - 1] == c {
      TrimRightShorter(s[..|s| - 1], c);
    }
  }

  /** `CONTENT_TYPE` becomes `content-type`. */
  lemma NormalizeExample(k: string)
    requires k == "CONTENT_TYPE"
    ensures NormalizeName(k) == "content-type"
  {
    NormalizeNameIsTranslate(k);
    assert k[|k| - 1] == 'E';
    assert TrimRight(k, '_') == k;
    var t := Translate(k);
    assert t == "content-type";
  }

  /** `inject({}) { |h, (k, v)| h[k] = v; h }` over pairs: later keys win. */
  function Assoc(pairs: seq<(string, string)>): map<string, string> {
    if pairs == [] then map[]
    else
      var (k, v) := pairs[|pairs| - 1];
      Assoc(pairs[..|pairs| - 1])[k := v]
  }

  /** The raw fields with their names normalised. */
  function Normalized(fields: seq<(string, string)>): (r: seq<(string, string)>)
    ensures |r| == |fields| &&
            forall i :: 0 <= i < |fields| ==> r[i] == (NormalizeName(fields[i].0), fields[i].1)
  {
    seq(|fields|, i requires 0 <= i < |fields| => (NormalizeName(fields[i].0), fields[i].1))
  }

  /** `response_header.inject({}) { |h, (k, v)| h[normalised k] = v; h }`. */
  function HeaderMap(fields: seq<(string, string)>): map<string, string> {
    Assoc(Normalized(fields))
  }

  lemma {:induction false} AssocKeys(pairs: seq<(string, string)>, k: string)
    ensures k in Assoc(pairs) <==> exists i :: 0 <= i < |pairs| && pairs[i].0 == k
  {
    if pairs != [] {
      var n := |pairs| - 1;
      var init := pairs[..n];
      AssocKeys(init, k);
      if pairs[n].0 != k {
        if k in Assoc(init) {
          var i :| 0 <= i < |init| && init[i].0 == k;
          assert pairs[i] == init[i];
        }
        if exists i :: 0 <= i < |pairs| && pairs[i].0 == k {
          var i :| 0 <= i < |pairs| && pairs[i].0 == k;
          assert init[i] == pairs[i];
        }
      }
    }
  }

  lemma {:induction false} AssocLastWins(pairs: seq<(string, string)>, i: nat)
    requires i < |pairs|
    requires forall j :: i < j < |pairs| ==> pairs[j].0 != pairs[i].0
    ensures pairs[i].0 in Assoc(pairs) && Assoc(pairs)[pairs[i].0] == pairs[i].1
  {
    if i < |pairs| - 1 {
      var init := pairs[..|pairs| - 1];
      assert init[i] == pairs[i];
      AssocLastWins(init, i);
    }
  }

  /** The headers are exactly the normalised raw names. */
  lemma HeaderMapKeys(fields: seq<(string, string)>, k: string)
    ensures k in HeaderMap(fields) <==> exists i :: 0 <= i < |fields| && NormalizeName(fields[i].0) == k
  {
    var ps := Normalized(fields);
    AssocKeys(ps, k);
    if exists i :: 0 <= i < |ps| && ps[i].0 == k {
      var i :| 0 <= i < |ps| && ps[i].0 == k;
      assert NormalizeName(fields[i].0) == k;
    }
    if exists i :: 0 <= i < |fields| && NormalizeName(fields[i].0) == k {
      var i :| 0 <= i < |fields| && NormalizeName(fields[i].0) == k;
      assert ps[i].0 == k;
    }
  }

  /** A header's value is the one of the last raw field it normalises from. */
  lemma HeaderMapLastWins(fields: seq<(string, string)>, i: nat)
    requires i < |fields|
    requires forall j :: i < j < |fields| ==> NormalizeName(fields[j].0) != NormalizeName(fields[i].0)
    ensures NormalizeName(fields[i].0) in HeaderMap(fields)
    ensures HeaderMap(fields)[NormalizeName(fields[i].0)] == fields[i].1
  {
    var ps := Normalized(fields);
    forall j | i < j < |ps|
      ensures ps[j].0 != ps[i].0
    {
    }
    AssocLastWins(ps, i);
  }

  /** What Rev's response header object supplies. */
  datatype ResponseHeader = ResponseHeader(
    status: int, reason: string, version: string,
    contentLength: Option<nat>, chunked: bool,
    fields: seq<(string, string)>)

  /** A value removed from the header hash by `delete`. */
  function Take(h: map<string, string>, k: string): (r: Option<string>)
    ensures r.Some? <==> k in h
    ensures r.Some? ==> r.value == h[k]
  {
    if k in h then Some(h[k]) else None
  }

  /** One `read_body` result: data, nil (request complete), or a raise. */
  datatype BodyRead = Chunk(data: Bytes) | Complete | Raised(error: Error)

  /** Decimal digits of n, as `#{n}` writes it. */
  function Decimal(n: nat): (r: string)
    ensures |r| >= 1
    decreases n
  {
    var d := ['0', '1', '2', '3', '4', '5', '6', '7', '8', '9'][n % 10];
    if n < 10 then [d] else Decimal(n / 10) + [d]
  }

  /** End-of-body detection by the socket closing is allowed only without a
      (non-zero) Content-Length and without chunked encoding. */
  predicate EofEndsBody(contentLength: Option<nat>, chunked: bool) {
    (contentLength.None? || contentLength == Some(0)) && !chunked
  }

  /** The Content-Length check after the loop of `body`. */
  function Finish(acc: Bytes, contentLength: Option<nat>): (r: (Result<Bytes>, Bytes))
    ensures r.1 == acc
    ensures r.0.Ok? <==> (contentLength.Some? ==> |acc| == contentLength.value)
    ensures r.0.Ok? ==> r.0.value == acc
  {
    if contentLength.Some? && |acc| != contentLength.value then
      (Err(HttpClientError("body size does not match Content-Length (" + Decimal(|acc|) +
                           " of " + Decimal(contentLength.value) + ")")), acc)
    else (Ok(acc), acc)
  }

  /** The loop of `body` from the i-th `read_body` with `acc` read so far:
      the result and the body left stored in `@body`.  Reads past the end
      of `script` return nil. */
  function BodyRun(script: seq<BodyRead>, i: nat, acc: Bytes, maxlength: Option<nat>,
                   contentLength: Option<nat>, chunked: bool): (Result<Bytes>, Bytes)
    decreases |script| - i
  {
    if i >= |script| then Finish(acc, contentLength)
    else match script[i]
      case Chunk(d) =>
        if maxlength.Some? && |acc + d| > maxlength.value then
          (Err(HttpClientError("overlength body")), acc + d)
        else BodyRun(script, i + 1, acc + d, maxlength, contentLength, chunked)
      case Complete => Finish(acc, contentLength)
      case Raised(e) =>
        if e.EOFError? && EofEndsBody(contentLength, chunked) then Finish(acc, contentLength)
        else (Err(e), acc)
  }

  /** The data chunks from the i-th read up to the first read that is not
      data. */
  function Chunks(script: seq<BodyRead>, i: nat): Bytes
    decreases |script| - i
  {
    if i < |script| && script[i].Chunk? then script[i].data + Chunks(script, i + 1) else []
  }

  /** The first read at or after i that is not data (|script| if none). */
  function Stop(script: seq<BodyRead>, i: nat): (r: nat)
    ensures i <= r
    ensures r >= |script| || !script[r].Chunk?
    ensures forall j :: i <= j < r && j < |script| ==> script[j].Chunk?
    decreases |script| - i
  {
    if i < |script| && script[i].Chunk? then Stop(script, i + 1) else i
  }

  /** What a successful `body` returns: exactly the chunks read before the
      first non-data read, which ended the body legitimately (nil, or an
      EOFError when the socket closing may end the body), has the declared
      Content-Length if there is one, and — when at most maxlength bytes
      had been read before — fits maxlength. */
  lemma {:induction false} BodyRunOk(script: seq<BodyRead>, i: nat, acc: Bytes, maxlength: Option<nat>,
                                     contentLength: Option<nat>, chunked: bool)
    requires BodyRun(script, i, acc, maxlength, contentLength, chunked).0.Ok?
    ensures var r := BodyRun(script, i, acc, maxlength, contentLength, chunked);
            var s := Stop(script, i);
            r.0.value == acc + Chunks(script, i) && r.1 == r.0.value &&
            (contentLength.Some? ==> |r.0.value| == contentLength.value) &&
            (maxlength.Some? && |acc| <= maxlength.value ==> |r.0.value| <= maxlength.value) &&
            (s < |script| ==> (script[s].Complete? ||
                               (script[s].Raised? && script[s].error.EOFError? && EofEndsBody(contentLength, chunked))))
    decreases |script| - i
  {
    if i < |script| && script[i].Chunk? {
      var d := script[i].data;
      BodyRunOk(script, i + 1, acc + d, maxlength, contentLength, chunked);
      assert acc + d + Chunks(script, i + 1) == acc + (d + Chunks(script, i + 1));
    } else {
      assert Chunks(script, i) == [];
      assert acc + [] == acc;
    }
  }

  /** `body` stops with "overlength body", leaving more than maxlength
      bytes stored, exactly when the chunks before the first non-data read
      outgrow maxlength. */
  lemma {:induction false} BodyRunOverlength(script: seq<BodyRead>, i: nat, acc: Bytes, max: nat,
                                             contentLength: Option<nat>, chunked: bool)
    requires |acc| <= max
    ensures var r := BodyRun(script, i, acc, Some(max), contentLength, chunked);
            |acc + Chunks(script, i)| > max <==> r.0 == Err(HttpClientError("overlength body")) && |r.1| > max
    decreases |script| - i
  {
    if i < |script| && script[i].Chunk? {
      var d := script[i].data;
      assert acc + Chunks(script, i) == (acc + d) + Chunks(script, i + 1);
      if |acc + d| <= max {
        BodyRunOverlength(script, i + 1, acc + d, max, contentLength, chunked);
      }
    } else {
      assert acc + Chunks(script, i) == acc;
    }
  }

  /** `Revactor::HttpResponse`. */
  class HttpResponse {
    const status: int
    const reason: string
    const version: string
    const contentLength: Option<nat>
    const chunked: bool
    const headers: map<string, string>
    const transferEncoding: Option<string>
    const contentType: Option<string>
    const contentEncoding: string
    var body: Option<Bytes>

    /** `HttpResponse.new(client, response_header)`: header names
        normalised; Transfer-Encoding, Content-Type and Content-Encoding
        moved out of `headers`, the last defaulting to "identity". */
    constructor(h: ResponseHeader)
      ensures status == h.status && reason == h.reason && version == h.version
      ensures contentLength == h.contentLength && chunked == h.chunked
      ensures var all := HeaderMap(h.fields);
              headers == all - {"transfer-encoding", "content-type", "content-encoding"} &&
              transferEncoding == Take(all, "transfer-encoding") &&
              contentType == Take(all, "content-type") &&
              contentEncoding == Take(all, "content-encoding").GetOr("identity")
      ensures body == None
    {
      status := h.status;
      reason := h.reason;
      version := h.version;
      contentLength := h.contentLength;
      chunked := h.chunked;
      var all := HeaderMap(h.fields);
      transferEncoding := Take(all, "transfer-encoding");
      contentType := Take(all, "content-type");
      contentEncoding := Take(all, "content-encoding").GetOr("identity");
      headers := all - {"transfer-encoding", "content-type", "content-encoding"};
      body := None;
    }

    /** `body(maxlength = nil)`, with `script` the successive `read_body`
        results: memoised once set; otherwise the chunks read are accumulated
        into `@body` with the length checks of BodyRun. */
    method Body(maxlength: Option<nat>, script: seq<BodyRead>) returns (r: Result<Bytes>)
      modifies this
      ensures old(body).Some? ==> r == Ok(old(body).value) && body == old(body)
      ensures old(body).None? ==>
                var run := BodyRun(script, 0, [], maxlength, contentLength, chunked);
                r == run.0 && body == Some(run.1)
    {
      if body.Some? {
        return Ok(body.value);
      }
      var acc: Bytes := [];
      body := Some(acc);
      var i := 0;
      while i < |script|
        invariant 0 <= i <= |script| && body == Some(acc)
        invariant maxlength.Some? ==> |acc| <= maxlength.value
        invariant BodyRun(script, i, acc, maxlength, contentLength, chunked) ==
                  BodyRun(script, 0, [], maxlength, contentLength, chunked)
        decreases |script| - i
      {
        match script[i] {
          case Chunk(d) =>
            acc := acc + d;
            body := Some(acc);
            if maxlength.Some? && |acc| > maxlength.value {
              return Err(HttpClientError("overlength body"));
            }
          case Complete =>
            break;
          case Raised(e) =>
            if !(e.EOFError? && EofEndsBody(contentLength, chunked)) {
              return Err(e);
            }
            break;
        }
        i := i + 1;
      }
      r := Finish(acc, contentLength).0;
    }
  }

  // ---------------------------------------------------------------------
  // Redirects (`HttpClient.request`)
  // ---------------------------------------------------------------------

  const MAX_REDIRECTS: nat := 10

  /** The statuses that are followed as redirects. */
  predicate IsRedirect(status: int) {
    status in {301, 302, 303, 307}
  }

  /** One iteration of the request loop as the network and the URI library
      decide it: the URI tried, whether it is an HTTP(S) URI, the status
      answered and the Location header. */
  datatype Attempt = Attempt(uri: string, isHttp: bool, status: int, location: Option<string>)

  /** Whether attempt a is a redirect the loop follows. */
  predicate Follows(follow: bool, a: Attempt) {
    a.isHttp && follow && IsRedirect(a.status) && a.location.Some?
  }

  /** `MAX_REDIRECTS.times do … end` from iteration n: the index of the
      attempt whose response is returned, or the error raised. */
  function RequestSpec(follow: bool, attempts: nat -> Attempt, n: nat): Result<nat>
    decreases MAX_REDIRECTS - n
  {
    if n >= MAX_REDIRECTS then Err(HttpClientError("exceeded maximum of 10 redirects"))
    else
      var a := attempts(n);
      if !a.isHttp then Err(InvalidURIError("invalid HTTP URI: " + a.uri))
      else if !(follow && IsRedirect(a.status)) then Ok(n)
      else if a.location.None? then Err(RuntimeError("redirect with no location header: " + a.uri))
      else RequestSpec(follow, attempts, n + 1)
  }

  /** The response returned is the first that is not a followed redirect,
      and every attempt before it was one. */
  lemma {:induction false} RequestReturns(follow: bool, attempts: nat -> Attempt, n: nat)
    requires n <= MAX_REDIRECTS
    requires RequestSpec(follow, attempts, n).Ok?
    ensures var m := RequestSpec(follow, attempts, n).value;
            n <= m < MAX_REDIRECTS && attempts(m).isHttp && !(follow && IsRedirect(attempts(m).status)) &&
            forall j :: n <= j < m ==> Follows(follow, attempts(j))
    decreases MAX_REDIRECTS - n
  {
    var a := attempts(n);
    if a.isHttp && follow && IsRedirect(a.status) && a.location.Some? {
      RequestReturns(follow, attempts, n + 1);
    }
  }

  /** The redirect limit is hit exactly when ten redirects in a row were
      followed. */
  lemma {:induction false} RequestExceeded(follow: bool, attempts: nat -> Attempt, n: nat)
    requires n <= MAX_REDIRECTS
    ensures RequestSpec(follow, attempts, n) == Err(HttpClientError("exceeded maximum of 10 redirects")) <==>
            forall j :: n <= j < MAX_REDIRECTS ==> Follows(follow, attempts(j))
    decreases MAX_REDIRECTS - n
  {
    if n < MAX_REDIRECTS {
      RequestExceeded(follow, attempts, n + 1);
    }
  }

  /** Without redirect following, the first HTTP URI's response is returned. */
  lemma RequestNoFollow(attempts: nat -> Attempt)
    requires attempts(0).isHttp
    ensures RequestSpec(false, attempts, 0) == Ok(0)
  {
  }

  /** `HttpClient.request(method, uri, options)`: `:follow_redirects`
      defaults to true when absent and is read for truthiness otherwise. */
  method Request(followOpt: Option<Value>, attempts: nat -> Attempt) returns (r: Result<nat>)
    ensures r == RequestSpec(if followOpt.Some? then Truthy(followOpt.value) else true, attempts, 0)
  {
    var follow := if followOpt.Some? then Truthy(followOpt.value) else true;
    for n := 0 to MAX_REDIRECTS
      invariant RequestSpec(follow, attempts, n) == RequestSpec(follow, attempts, 0)
    {
      var a := attempts(n);
      if !a.isHttp {
        return Err(InvalidURIError("invalid HTTP URI: " + a.uri));
      }
      if !(follow && IsRedirect(a.status)) {
        return Ok(n);
      }
      if a.location.None? {
        return Err(RuntimeError("redirect with no location header: " + a.uri));
      }
    }
    r := Err(HttpClientError("exceeded maximum of 10 redirects"));
  }
}
