/** The `TurboHub` HTTP function: it reads the `uri` query value, fetches that URI
    with a GET, and relays a successful upstream body to the client as a file
    download; a blank `uri` and an unsuccessful upstream get fixed text replies.

    The upstream is the parameter `fetch`: the outcome of a GET to a URI. The
    handler reports the URIs it fetched, so that "nothing is fetched" and
    "fetched exactly once" are statements about its result. */
module TurboHub {
  import opened Options
  import opened Headers
  import opened Http
  import opened Text

  const MissingMessage: string := "Please pass a name on the query string"
  const FailedMessage: string := "Failed to get response from uri"
  const OctetStream: string := "application" + "/" + "octet-stream"
  const DispositionPrefix: string := "attachment; filename="

  /** How a call ends: it returns a response, or `Headers.Add` throws a
      `FormatException` for the header it was given, which leaves the handler. */
  datatype Reply = Returned(response: Response) | FormatException(header: Header)

  /** One call of the handler: the outbound GETs it issued, in order, and how it
      ended. */
  datatype Exchange = Exchange(fetched: seq<string>, reply: Reply)

  /** The download name: the last piece of the URI split on '/', which is the
      text after the URI's last '/': a '/'-free suffix whose preceding text is
      empty or ends in '/'. */
  function FileName(uri: string): (f: string)
    ensures |f| <= |uri| && uri[|uri| - |f|..] == f
    ensures '/' !in f
    ensures |f| < |uri| ==> uri[|uri| - |f| - 1] == '/'
  {
    LastOfSplit(uri, '/');
    AfterLastIsSuffix(uri, '/');
    Last(Split(uri, '/'))
  }

  /** The same as a decomposition of the URI. A URI without '/' is its own
      name; a URI ending in '/' names the empty file. */
  lemma FileNameIsLastSegment(uri: string)
    ensures var f := FileName(uri);
            && |f| <= |uri|
            && uri == uri[..|uri| - |f|] + f
            && '/' !in f
            && (|f| < |uri| ==> uri[|uri| - |f| - 1] == '/')
    ensures '/' !in uri ==> FileName(uri) == uri
    ensures |uri| > 0 && uri[|uri| - 1] == '/' ==> FileName(uri) == ""
  {
    var f := FileName(uri);
    assert uri == uri[..|uri| - |f|] + uri[|uri| - |f|..];
    if '/' !in uri {
      LastOfSplit(uri, '/');
      AfterLastUnique(uri, '/', "", uri);
    }
  }

  /** Conversely, any '/'-free suffix preceded by nothing or by a '/' is the
      download name. */
  lemma FileNameUnique(uri: string, prefix: string, name: string)
    requires uri == prefix + name
    requires '/' !in name
    requires prefix == [] || prefix[|prefix| - 1] == '/'
    ensures FileName(uri) == name
  {
    LastOfSplit(uri, '/');
    AfterLastUnique(uri, '/', prefix, name);
  }

  /** The handler as a function of the raw query value and the upstream. */
  function Handle(query: Option<string>, fetch: string -> Upstream): (x: Exchange)
    // the input gate: a blank uri fetches nothing and gets 404; otherwise the
    // untrimmed uri is fetched exactly once, with no other check
    ensures IsNullOrWhiteSpace(query) <==> x.fetched == []
    ensures !IsNullOrWhiteSpace(query) ==> query.Some? && x.fetched == [query.value]
    ensures x.reply.Returned? && x.reply.response.status == NotFound <==> IsNullOrWhiteSpace(query)
    // the outcome classification: a 2xx upstream gives 200 unless the
    // Content-Disposition value does not parse, which throws; anything else 500
    ensures x.reply.Returned? && x.reply.response.status == OK <==>
              && query.Some? && !IsNullOrWhiteSpace(query) && 200 <= fetch(query.value).status < 300
              && ContentDispositionParses(DispositionPrefix + FileName(query.value))
    ensures x.reply.FormatException? <==>
              && query.Some? && !IsNullOrWhiteSpace(query) && 200 <= fetch(query.value).status < 300
              && !ContentDispositionParses(DispositionPrefix + FileName(query.value))
    ensures x.reply.Returned? && x.reply.response.status == InternalServerError <==>
              query.Some? && !IsNullOrWhiteSpace(query) && !(200 <= fetch(query.value).status < 300)
    // the replies: fixed text without headers, the upstream body as a download,
    // or the exception naming the rejected header
    ensures x.reply.Returned? && x.reply.response.status == NotFound ==>
              x.reply.response.headers == [] && x.reply.response.body == Utf8(MissingMessage)
    ensures x.reply.Returned? && x.reply.response.status == InternalServerError ==>
              x.reply.response.headers == [] && x.reply.response.body == Utf8(FailedMessage)
    ensures x.reply.Returned? && x.reply.response.status == OK ==>
              && query.Some?
              && x.reply.response.headers == [Header("Content-Type", OctetStream),
                                              Header("Content-Disposition", DispositionPrefix + FileName(query.value))]
              && x.reply.response.body == fetch(query.value).body
    ensures x.reply.FormatException? ==>
              query.Some? && x.reply.header == Header("Content-Disposition", DispositionPrefix + FileName(query.value))
  {
    if IsNullOrWhiteSpace(query) then
      Exchange([], Returned(Response(NotFound, [], Utf8(MissingMessage))))
    else
      var uri := query.value;
      var upstream := fetch(uri);
      if IsSuccessStatusCode(upstream.status) then
        // adding the Content-Type header never throws (`OctetStreamAccepted`);
        // adding the Content-Disposition one throws exactly when its value does
        // not parse (`DispositionAccepted`)
        var disposition := DispositionPrefix + FileName(uri);
        if !ContentDispositionParses(disposition) then
          Exchange([uri], FormatException(Header("Content-Disposition", disposition)))
        else
          Exchange([uri], Returned(Response(OK, [Header("Content-Type", OctetStream),
                                                 Header("Content-Disposition", disposition)],
                                            upstream.body)))
      else
        Exchange([uri], Returned(Response(InternalServerError, [], Utf8(FailedMessage))))
  }

  /** Every call ends in exactly one of the three replies or in the exception,
      headers are set on the success reply only, and at most one GET is issued. */
  lemma OneOutcomePerCall(query: Option<string>, fetch: string -> Upstream)
    ensures var x := Handle(query, fetch);
            && (x.reply.Returned? ==> x.reply.response.status in {OK, NotFound, InternalServerError})
            && (x.reply.Returned? ==> (x.reply.response.headers != [] <==> x.reply.response.status == OK))
            && (x.reply.FormatException? ==> |x.fetched| == 1)
            && |x.fetched| <= 1
  {
  }

  /** The reply depends on the upstream only through the one URI fetched: with
      a blank query any two upstreams give the same reply, and otherwise any two
      that agree on the query's URI do. Repeating a request against the same
      upstream therefore repeats the reply. */
  lemma ReplyDependsOnlyOnFetched(query: Option<string>, fetch1: string -> Upstream, fetch2: string -> Upstream)
    requires forall u :: u in Handle(query, fetch1).fetched ==> fetch1(u) == fetch2(u)
    ensures Handle(query, fetch1) == Handle(query, fetch2)
  {
    if !IsNullOrWhiteSpace(query) {
      assert query.value in Handle(query, fetch1).fetched;
    }
  }

  /** On success the headers are the two fixed ones, whatever content type the
      upstream declared, and the Content-Disposition value is the prefix
      followed by a '/'-free suffix of the URI that starts at its beginning or
      just after a '/'. */
  lemma DispositionNamesLastSegment(query: Option<string>, fetch: string -> Upstream)
    requires Handle(query, fetch).reply.Returned? && Handle(query, fetch).reply.response.status == OK
    ensures query.Some?
    ensures var h := Handle(query, fetch).reply.response.headers;
            var uri := query.value;
            var f := FileName(uri);
            && h == [Header("Content-Type", OctetStream), Header("Content-Disposition", DispositionPrefix + f)]
            && ContentDispositionParses(DispositionPrefix + f)
            && '/' !in f
            && |f| <= |uri|
            && uri == uri[..|uri| - |f|] + f
            && (|f| < |uri| ==> uri[|uri| - |f| - 1] == '/')
  {
    FileNameIsLastSegment(query.value);
  }

  /** `attachment; filename=` followed by any file name has the shape of a
      Content-Disposition type with one parameter, and the name sits after it. */
  lemma PrefixShape(f: string)
    ensures DispositionShape(DispositionPrefix + f, 10, 20)
    ensures forall k :: 21 <= k < 21 + |f| ==> (DispositionPrefix + f)[k] == f[k - 21]
  {
    var v := DispositionPrefix + f;
    assert forall k :: 0 <= k < 10 ==> 'a' <= v[k] <= 'z';
    assert v[10] == ';' && v[11] == ' ' && v[20] == '=';
    assert forall k :: 12 <= k < 20 ==> 'a' <= v[k] <= 'z';
  }

  /** A file name that is a token gives a well-formed Content-Disposition. */
  lemma TokenNameAccepted(f: string)
    requires IsToken(f)
    ensures ContentDispositionParses(DispositionPrefix + f)
  {
    var v := DispositionPrefix + f;
    PrefixShape(f);
    assert forall k :: 21 <= k < |v| ==> IsTokenChar(v[k]) by {
      forall k | 21 <= k < |v| ensures IsTokenChar(v[k]) {
        assert v[k] == f[k - 21];
      }
    }
    TokenValueAccepted(v, 10, 20);
  }

  /** The empty file name leaves `filename=` without a value, which is rejected. */
  lemma EmptyNameRejected()
    ensures !ContentDispositionParses(DispositionPrefix)
  {
    PrefixShape([]);
    assert DispositionPrefix + [] == DispositionPrefix;
    MissingValueRejected(DispositionPrefix, 10, 20);
  }

  /** A file name that starts with a token `f[..p]`, then has spaces or tabs up
      to `q` and at `q` a character the parser cannot place (one that is not
      ';', nor white space, nor after the token itself a token character) is
      rejected: a space before more text, or a separator such as '?', '=', '"'
      or '@' straight after the token. */
  lemma StrayCharacterRejected(f: string, p: nat, q: nat)
    requires 0 < p <= q < |f|
    requires forall k :: 0 <= k < p ==> IsTokenChar(f[k])
    requires forall k :: p <= k < q ==> IsSpaceOrTab(f[k])
    requires !IsSpaceOrTab(f[q]) && f[q] != '\r' && f[q] != ';'
    requires p < q || !IsTokenChar(f[q])
    ensures !ContentDispositionParses(DispositionPrefix + f)
  {
    var v := DispositionPrefix + f;
    PrefixShape(f);
    assert forall k :: 21 <= k < 21 + p ==> IsTokenChar(v[k]) by {
      forall k | 21 <= k < 21 + p ensures IsTokenChar(v[k]) {
        assert v[k] == f[k - 21];
      }
    }
    assert forall k :: 21 + p <= k < 21 + q ==> IsSpaceOrTab(v[k]) by {
      forall k | 21 + p <= k < 21 + q ensures IsSpaceOrTab(v[k]) {
        assert v[k] == f[k - 21];
      }
    }
    assert v[21 + q] == f[q];
    StrayAfterValueRejected(v, 10, 20, 21 + p, 21 + q);
  }

  /** A URI ending in '/' names the empty file, so after a 2xx upstream adding
      the Content-Disposition header throws. */
  lemma TrailingSlashThrows(query: Option<string>, fetch: string -> Upstream)
    requires query.Some? && |query.value| > 0 && query.value[|query.value| - 1] == '/'
    requires IsSuccessStatusCode(fetch(query.value).status)
    ensures Handle(query, fetch).reply == FormatException(Header("Content-Disposition", DispositionPrefix))
  {
    assert !IsWhiteSpace(query.value[|query.value| - 1]);
    FileNameIsLastSegment(query.value);
    EmptyNameRejected();
    assert DispositionPrefix + FileName(query.value) == DispositionPrefix;
  }

  /** A name with a stray character, as in `StrayCharacterRejected`, makes a
      2xx upstream end in the exception rather than a download. */
  lemma MalformedNameThrows(query: Option<string>, fetch: string -> Upstream, p: nat, q: nat)
    requires query.Some? && !IsNullOrWhiteSpace(query) && IsSuccessStatusCode(fetch(query.value).status)
    requires var f := FileName(query.value);
             && 0 < p <= q < |f|
             && (forall k :: 0 <= k < p ==> IsTokenChar(f[k]))
             && (forall k :: p <= k < q ==> IsSpaceOrTab(f[k]))
             && !IsSpaceOrTab(f[q]) && f[q] != '\r' && f[q] != ';'
             && (p < q || !IsTokenChar(f[q]))
    ensures Handle(query, fetch).reply == FormatException(Header("Content-Disposition", DispositionPrefix + FileName(query.value)))
  {
    StrayCharacterRejected(FileName(query.value), p, q);
  }

  /** Both fixed messages are plain ASCII text. */
  lemma MessagesAreAscii()
    ensures forall i :: 0 <= i < |MissingMessage| ==> MissingMessage[i] as int < 0x80
    ensures forall i :: 0 <= i < |FailedMessage| ==> FailedMessage[i] as int < 0x80
  {
  }

  /** The 404 and 500 bodies are the fixed messages byte for byte, one byte per
      character. */
  lemma TextRepliesAreMessages(query: Option<string>, fetch: string -> Upstream)
    requires Handle(query, fetch).reply.Returned? && Handle(query, fetch).reply.response.status != OK
    ensures var r := Handle(query, fetch).reply.response;
            var text := if r.status == NotFound then MissingMessage else FailedMessage;
            && |r.body| == |text|
            && forall i :: 0 <= i < |text| ==> r.body[i] as int == text[i] as int
  {
    MessagesAreAscii();
    Utf8OfAscii(MissingMessage);
    Utf8OfAscii(FailedMessage);
  }

  /** Both kinds of GitHub download URL, a branch archive and a release asset,
      download under the name of their last segment. */
  lemma GitHubDownloadNames(org: string, project: string, branch: string, tag: string, file: string)
    requires '/' !in branch && '/' !in file
    ensures FileName("https://github.com/" + org + "/" + project + "/archive/refs/heads/" + branch) == branch
    ensures FileName("https://github.com/" + org + "/" + project + "/releases/download/" + tag + "/" + file) == file
  {
    var archive := "https://github.com/" + org + "/" + project + "/archive/refs/heads/";
    assert archive[|archive| - 1] == '/';
    FileNameUnique(archive + branch, archive, branch);
    var release := "https://github.com/" + org + "/" + project + "/releases/download/" + tag + "/";
    assert release[|release| - 1] == '/';
    FileNameUnique(release + file, release, file);
  }

  /** A URI whose last segment is a token followed by a query string, such as
      `.../file.zip?raw=true`, keeps the query in the download name, so after a
      2xx upstream adding the Content-Disposition header throws at the '?'. */
  lemma QueryInNameThrows(prefix: string, name: string, rest: string, fetch: string -> Upstream)
    requires IsToken(name) && '/' !in rest
    requires IsSuccessStatusCode(fetch(prefix + "/" + name + "?" + rest).status)
    ensures Handle(Some(prefix + "/" + name + "?" + rest), fetch).reply.FormatException?
  {
    var uri := prefix + "/" + name + "?" + rest;
    var f := name + "?" + rest;
    assert uri == (prefix + "/") + f;
    assert '/' !in f by {
      forall k | 0 <= k < |f| ensures f[k] != '/' {
        if k < |name| {
          assert f[k] == name[k] && IsTokenChar(name[k]);
        } else if k > |name| {
          assert f[k] == rest[k - |name| - 1];
        }
      }
    }
    FileNameUnique(uri, prefix + "/", f);
    assert forall k :: 0 <= k < |name| ==> IsTokenChar(f[k]) by {
      forall k | 0 <= k < |name| ensures IsTokenChar(f[k]) {
        assert f[k] == name[k];
      }
    }
    StrayCharacterRejected(f, |name|, |name|);
    assert uri[|prefix|] == '/' && !IsWhiteSpace(uri[|prefix|]);
  }

  /** A branch archive URL whose branch name is a token downloads, after a
      2xx upstream, under the branch name. */
  lemma GitHubArchiveDownloads(org: string, project: string, branch: string, fetch: string -> Upstream)
    requires IsToken(branch)
    requires IsSuccessStatusCode(fetch("https://github.com/" + org + "/" + project + "/archive/refs/heads/" + branch).status)
    ensures var x := Handle(Some("https://github.com/" + org + "/" + project + "/archive/refs/heads/" + branch), fetch);
            && x.reply.Returned? && x.reply.response.status == OK
            && x.reply.response.headers[1] == Header("Content-Disposition", DispositionPrefix + branch)
  {
    var uri := "https://github.com/" + org + "/" + project + "/archive/refs/heads/" + branch;
    assert '/' !in branch by {
      forall k | 0 <= k < |branch| ensures branch[k] != '/' {
        assert IsTokenChar(branch[k]);
      }
    }
    GitHubDownloadNames(org, project, branch, "", branch);
    TokenNameAccepted(branch);
    assert !IsWhiteSpace(uri[0]);
  }

  /** The 2xx branch as it runs: a 200 response gets the two headers added in
      turn and the upstream body copied to it, unless adding the
      Content-Disposition header throws. */
  method Relay(uri: string, body: seq<byte>) returns (rep: HttpResponseData?, thrown: Option<Header>)
    ensures rep == null <==> thrown.Some?
    ensures thrown.Some? ==> && !ContentDispositionParses(DispositionPrefix + FileName(uri))
                             && thrown.value == Header("Content-Disposition", DispositionPrefix + FileName(uri))
    ensures rep != null ==> && fresh(rep)
                            && ContentDispositionParses(DispositionPrefix + FileName(uri))
                            && rep.Snapshot() == Response(OK, [Header("Content-Type", OctetStream),
                                                               Header("Content-Disposition", DispositionPrefix + FileName(uri))],
                                                          body)
  {
    var contentType := Header("Content-Type", OctetStream);
    rep := new HttpResponseData(OK);
    OctetStreamAccepted();
    var accepted := rep.AddHeader(contentType.name, contentType.value);
    assert accepted;
    assert rep.Snapshot() == Response(OK, [contentType], []);
    var fileName := FileName(uri);
    var disposition := Header("Content-Disposition", DispositionPrefix + fileName);
    accepted := rep.AddHeader(disposition.name, disposition.value);
    DispositionAccepted(disposition.value);
    if !accepted {
      return null, Some(disposition);
    }
    assert rep.Snapshot() == Response(OK, [contentType, disposition], []);
    rep.CopyFrom(body);
    thrown := None;
  }

  /** The handler as it runs: it creates the response object, adds the headers
      one by one and writes or copies the body. It returns the response, or no
      response and the header whose `Add` threw, together with the URIs it
      fetched. */
  method Run(query: Option<string>, fetch: string -> Upstream)
    returns (rep: HttpResponseData?, thrown: Option<Header>, fetched: seq<string>)
    ensures fetched == Handle(query, fetch).fetched
    ensures rep == null <==> thrown.Some?
    ensures thrown.Some? ==> Handle(query, fetch).reply == FormatException(thrown.value)
    ensures rep != null ==> fresh(rep) && Handle(query, fetch).reply == Returned(rep.Snapshot())
  {
    if !IsNullOrWhiteSpace(query) {
      var uri := query.value;
      var response := fetch(uri);
      fetched := [uri];
      if IsSuccessStatusCode(response.status) {
        rep, thrown := Relay(uri, response.body);
      } else {
        rep := new HttpResponseData(InternalServerError);
        rep.WriteString(FailedMessage);
        thrown := None;
      }
    } else {
      fetched := [];
      rep := new HttpResponseData(NotFound);
      rep.WriteString(MissingMessage);
      thrown := None;
    }
  }
}
