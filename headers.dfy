/** How the response's header collection checks a value before adding it. The
    collection is a System.Net.Http `HttpHeaders`: `Add(name, value)` rejects a
    name that is not a token, parses the value of a header it knows with that
    header's parser, and throws `FormatException` when the parse fails.

    The parsers are recursive-descent scanners over the value. Each scanner
    here takes the text and a start index and returns the index where what it
    recognised ends; returning the start index means "nothing recognised",
    which the .NET parsers report as a length of 0. */
module Headers {

  /** A token character as .NET's token table marks it: a visible ASCII
      character that is not one of the separators. It is exactly RFC 7230's
      `tchar`, a letter, a digit or one of fifteen punctuation marks. */
  predicate IsTokenChar(c: char)
    ensures IsTokenChar(c) <==>
              'a' <= c <= 'z' || 'A' <= c <= 'Z' || '0' <= c <= '9' || c in TokenPunctuation
  {
    && '!' <= c <= '~'
    && c != '(' && c != ')' && c != '<' && c != '>' && c != '@'
    && c != ',' && c != ';' && c != ':' && c != '\\' && c != '"'
    && c != '/' && c != '[' && c != ']' && c != '?' && c != '='
    && c != '{' && c != '}'
  }

  /** The punctuation RFC 7230 allows in a token. */
  const TokenPunctuation: set<char> :=
    {'!', '#', '$', '%', '&', '\'', '*', '+', '-', '.', '^', '_', '`', '|', '~'}

  /** A non-empty run of token characters. */
  predicate IsToken(s: string)
  {
    |s| > 0 && forall k :: 0 <= k < |s| ==> IsTokenChar(s[k])
  }

  predicate IsSpaceOrTab(c: char)
  {
    c == ' ' || c == '\t'
  }

  /** Skips spaces, tabs and line folds (CR LF followed by a space or tab). */
  function WhitespaceEnd(s: string, i: nat): (j: nat)
    requires i <= |s|
    ensures i <= j <= |s|
    ensures j < |s| ==> !IsSpaceOrTab(s[j])
    decreases |s| - i
  {
    if i < |s| && IsSpaceOrTab(s[i]) then WhitespaceEnd(s, i + 1)
    else if i + 2 < |s| && s[i] == '\r' && s[i + 1] == '\n' && IsSpaceOrTab(s[i + 2]) then WhitespaceEnd(s, i + 3)
    else i
  }

  /** Skips token characters. */
  function TokenEnd(s: string, i: nat): (j: nat)
    requires i <= |s|
    ensures i <= j <= |s|
    ensures j < |s| ==> !IsTokenChar(s[j])
    decreases |s| - i
  {
    if i < |s| && IsTokenChar(s[i]) then TokenEnd(s, i + 1) else i
  }

  /** The rest of a quoted string whose opening quote is at `start`, scanned
      from `k`: a backslash and an ASCII character form a pair when at least one
      more character follows them, and the first other '"' closes the string. */
  function QuotedRest(s: string, start: nat, k: nat): (j: nat)
    requires start < k <= |s|
    ensures j == start || k < j <= |s|
    ensures j != start ==> s[j - 1] == '"'
    decreases |s| - k
  {
    if k == |s| then start
    else if k + 2 < |s| && s[k] == '\\' && s[k + 1] as int <= 127 then QuotedRest(s, start, k + 2)
    else if s[k] == '"' then k + 1
    else QuotedRest(s, start, k + 1)
  }

  /** A quoted string starting at `i`. */
  function QuotedStringEnd(s: string, i: nat): (j: nat)
    requires i <= |s|
    ensures i <= j <= |s|
    ensures j > i ==> j >= i + 2 && s[i] == '"' && s[j - 1] == '"'
  {
    if i < |s| && s[i] == '"' then QuotedRest(s, i, i + 1) else i
  }

  /** A parameter value: a token, or failing that a quoted string. */
  function ValueEnd(s: string, i: nat): (j: nat)
    requires i <= |s|
    ensures i <= j <= |s|
    ensures j > i ==> IsTokenChar(s[i]) || s[i] == '"'
  {
    var t := TokenEnd(s, i);
    if t > i then t else QuotedStringEnd(s, i)
  }

  /** A parameter `name` or `name = value`, with the white space after it. A
      '=' must be followed by a value. */
  function NameValueEnd(s: string, i: nat): (j: nat)
    requires i <= |s|
    ensures i <= j <= |s|
    ensures j > i ==> IsTokenChar(s[i])
  {
    var n := TokenEnd(s, i);
    if n == i then i
    else
      var c := WhitespaceEnd(s, n);
      if c == |s| || s[c] != '=' then c
      else
        var v := WhitespaceEnd(s, c + 1);
        var e := ValueEnd(s, v);
        if e == v then i else WhitespaceEnd(s, e)
  }

  /** The loop over ';'-separated parameters that began at `start`, now at
      `cur`: it stops after the first parameter not followed by ';'. */
  function NameValueListLoop(s: string, start: nat, cur: nat): (j: nat)
    requires start <= cur <= |s|
    ensures start <= j <= |s|
    decreases |s| - cur
  {
    var p := NameValueEnd(s, cur);
    if p == cur then start
    else
      var c := WhitespaceEnd(s, p);
      if c == |s| || s[c] != ';' then c
      else NameValueListLoop(s, start, WhitespaceEnd(s, c + 1))
  }

  /** A non-empty list of ';'-separated parameters starting at `i`. */
  function NameValueListEnd(s: string, i: nat): (j: nat)
    requires i <= |s|
    ensures i <= j <= |s|
  {
    if i == |s| then i else NameValueListLoop(s, i, WhitespaceEnd(s, i))
  }

  /** After a type and its white space, at `c`: either nothing more, or ';' and
      a parameter list. */
  function ParametersEnd(s: string, start: nat, c: nat): (j: nat)
    requires start < c <= |s|
    ensures start <= j <= |s|
    ensures j == start || c <= j
  {
    if c < |s| && s[c] == ';' then
      var l := NameValueListEnd(s, c + 1);
      if l == c + 1 then start else l
    else c
  }

  /** A Content-Disposition value: a disposition type token and its parameters. */
  function DispositionEnd(s: string, i: nat): (j: nat)
    requires i <= |s|
    ensures i <= j <= |s|
    ensures j > i ==> IsTokenChar(s[i])
  {
    var t := TokenEnd(s, i);
    if t == i then i else ParametersEnd(s, i, WhitespaceEnd(s, t))
  }

  /** A Content-Type value: `type/subtype` (white space allowed around '/') and
      its parameters. */
  function MediaTypeEnd(s: string, i: nat): (j: nat)
    requires i <= |s|
    ensures i <= j <= |s|
    ensures j > i ==> IsTokenChar(s[i]) && '/' in s[i..j]
  {
    var t := TokenEnd(s, i);
    if t == i then i
    else
      var c := WhitespaceEnd(s, t);
      if c == |s| || s[c] != '/' then i
      else
        var d := WhitespaceEnd(s, c + 1);
        var u := TokenEnd(s, d);
        if u == d then i
        else
          var j := ParametersEnd(s, i, WhitespaceEnd(s, u));
          assert j > i ==> s[i..j][c - i] == '/';
          j
  }

  /** A header that takes a single value parses when, after leading white
      space, its parser recognises something and only white space follows. A
      Content-Disposition value then starts, past that white space, with the
      first character of its disposition type. */
  predicate ContentDispositionParses(v: string)
    ensures ContentDispositionParses(v) ==>
              WhitespaceEnd(v, 0) < |v| && IsTokenChar(v[WhitespaceEnd(v, 0)])
  {
    var a := WhitespaceEnd(v, 0);
    a < |v| && var e := DispositionEnd(v, a); e > a && WhitespaceEnd(v, e) == |v|
  }

  /** A Content-Type value that parses starts, past white space, with the
      first character of its media type and holds the '/' after that type. */
  predicate MediaTypeParses(v: string)
    ensures MediaTypeParses(v) ==>
              WhitespaceEnd(v, 0) < |v| && IsTokenChar(v[WhitespaceEnd(v, 0)]) && '/' in v
  {
    var a := WhitespaceEnd(v, 0);
    a < |v| && var e := MediaTypeEnd(v, a); e > a && WhitespaceEnd(v, e) == |v|
  }

  /** Whether `Add(name, value)` accepts the header rather than throwing. The
      name must be a token, and a Content-Disposition or Content-Type value must
      hold more than white space: it starts, past that, with a token character. */
  predicate AddAccepts(name: string, value: string)
    ensures AddAccepts(name, value) ==> IsToken(name)
    ensures AddAccepts(name, value) && (name == "Content-Disposition" || name == "Content-Type") ==>
              WhitespaceEnd(value, 0) < |value| && IsTokenChar(value[WhitespaceEnd(value, 0)])
  {
    && IsToken(name)
    && if name == "Content-Disposition" then ContentDispositionParses(value)
       else if name == "Content-Type" then MediaTypeParses(value)
       else '\r' !in value && '\n' !in value
  }

  /** A scan over token characters stops at the first character that is not one. */
  lemma {:induction false} TokenEndAt(s: string, i: nat, j: nat)
    requires i <= j <= |s|
    requires forall k :: i <= k < j ==> IsTokenChar(s[k])
    requires j == |s| || !IsTokenChar(s[j])
    ensures TokenEnd(s, i) == j
    decreases j - i
  {
    if i < j {
      TokenEndAt(s, i + 1, j);
    }
  }

  /** Everything a scan over token characters passes is a token character. */
  lemma {:induction false} TokenEndSpansTokens(s: string, i: nat)
    requires i <= |s|
    ensures forall k :: i <= k < TokenEnd(s, i) ==> IsTokenChar(s[k])
    decreases |s| - i
  {
    if i < |s| && IsTokenChar(s[i]) {
      TokenEndSpansTokens(s, i + 1);
    }
  }

  /** A line fold, CR LF followed by a space or tab, starts at `j`. */
  predicate FoldAt(s: string, j: nat)
  {
    j + 2 < |s| && s[j] == '\r' && s[j + 1] == '\n' && IsSpaceOrTab(s[j + 2])
  }

  /** A scan over a run of spaces and tabs stops at the first character that is
      neither a space nor a tab and does not begin a line fold. */
  lemma {:induction false} WhitespaceEndAt(s: string, i: nat, j: nat)
    requires i <= j <= |s|
    requires forall k :: i <= k < j ==> IsSpaceOrTab(s[k])
    requires j == |s| || (!IsSpaceOrTab(s[j]) && !FoldAt(s, j))
    ensures WhitespaceEnd(s, i) == j
    decreases j - i
  {
    if i < j {
      WhitespaceEndAt(s, i + 1, j);
    }
  }

  /** A parameter value that is a token `s[i..p]` followed by spaces or tabs up
      to `q` ends at `p`, and the white space after it ends at `q`, provided the
      character at `q` neither extends the token nor is white space. */
  lemma TokenValueThenStray(s: string, i: nat, p: nat, q: nat)
    requires i < p <= q < |s|
    requires forall k :: i <= k < p ==> IsTokenChar(s[k])
    requires forall k :: p <= k < q ==> IsSpaceOrTab(s[k])
    requires !IsSpaceOrTab(s[q]) && s[q] != '\r'
    requires p < q || !IsTokenChar(s[q])
    ensures WhitespaceEnd(s, i) == i
    ensures ValueEnd(s, i) == p
    ensures WhitespaceEnd(s, p) == q
    ensures WhitespaceEnd(s, q) == q
  {
    WhitespaceEndAt(s, i, i);
    TokenEndAt(s, i, p);
    WhitespaceEndAt(s, p, q);
    WhitespaceEndAt(s, q, q);
  }

  /** `v` begins like `attachment; filename=`: a disposition type `v[..t]`, then
      "; ", then a parameter name `v[t + 2..n]`, then '=' at `n`. */
  predicate DispositionShape(v: string, t: nat, n: nat)
  {
    && 0 < t && t + 2 < n < |v|
    && (forall k :: 0 <= k < t ==> IsTokenChar(v[k]))
    && v[t] == ';' && v[t + 1] == ' ' && v[n] == '='
    && (forall k :: t + 2 <= k < n ==> IsTokenChar(v[k]))
  }

  /** A single-value header whose text starts with a token parses when the
      disposition scan from 0 ends past 0 with only white space after it. */
  lemma ParsesFromStart(v: string)
    requires |v| > 0 && IsTokenChar(v[0])
    ensures ContentDispositionParses(v) <==>
              DispositionEnd(v, 0) > 0 && WhitespaceEnd(v, DispositionEnd(v, 0)) == |v|
  {
    WhitespaceEndAt(v, 0, 0);
  }

  /** The disposition type `v[..t]` is followed by ';', so the scan goes on to
      the parameter list after it, and fails when that list is empty. */
  lemma TypeThenParameters(v: string, t: nat, n: nat)
    requires DispositionShape(v, t, n)
    ensures DispositionEnd(v, 0) == (var l := NameValueListEnd(v, t + 1); if l == t + 1 then 0 else l)
  {
    TokenEndAt(v, 0, t);
    WhitespaceEndAt(v, t, t);
  }

  /** The parameter list after ';' starts, past the space, with the parameter
      name. */
  lemma ParametersStartAtName(v: string, t: nat, n: nat)
    requires DispositionShape(v, t, n)
    ensures WhitespaceEnd(v, t + 1) == t + 2
  {
    WhitespaceEndAt(v, t + 1, t + 2);
  }

  /** The parameter name `v[t + 2..n]` is followed by '=', so the parameter
      ends where its value and the white space after the value end, and is
      missing when no value follows. */
  lemma NameThenValue(v: string, t: nat, n: nat)
    requires DispositionShape(v, t, n)
    ensures NameValueEnd(v, t + 2) == (var w := WhitespaceEnd(v, n + 1); var e := ValueEnd(v, w);
                                       if e == w then t + 2 else WhitespaceEnd(v, e))
  {
    TokenEndAt(v, t + 2, n);
    WhitespaceEndAt(v, n, n);
  }

  /** For a value of that shape the type and the parameter name are recognised,
      so whether it parses turns on how the parameter loop ends. */
  lemma DispositionScan(v: string, t: nat, n: nat)
    requires DispositionShape(v, t, n)
    ensures ContentDispositionParses(v) <==>
              var l := NameValueListLoop(v, t + 1, t + 2); l != t + 1 && WhitespaceEnd(v, l) == |v|
  {
    ParsesFromStart(v);
    TypeThenParameters(v, t, n);
    ParametersStartAtName(v, t, n);
  }

  /** A parameter value that is a token running to the end is accepted. */
  lemma TokenValueAccepted(v: string, t: nat, n: nat)
    requires DispositionShape(v, t, n) && n + 1 < |v|
    requires forall k :: n + 1 <= k < |v| ==> IsTokenChar(v[k])
    ensures ContentDispositionParses(v)
  {
    DispositionScan(v, t, n);
    NameThenValue(v, t, n);
    WhitespaceEndAt(v, n + 1, n + 1);
    TokenEndAt(v, n + 1, |v|);
    WhitespaceEndAt(v, |v|, |v|);
  }

  /** '=' with nothing after it is rejected. */
  lemma MissingValueRejected(v: string, t: nat, n: nat)
    requires DispositionShape(v, t, n) && n + 1 == |v|
    ensures !ContentDispositionParses(v)
  {
    DispositionScan(v, t, n);
    NameThenValue(v, t, n);
    WhitespaceEndAt(v, n + 1, n + 1);
  }

  /** A token value followed, after optional spaces or tabs, by a character the
      parser cannot place (not ';', not white space, and not a token character
      straight after the token) is rejected. */
  lemma StrayAfterValueRejected(v: string, t: nat, n: nat, p: nat, q: nat)
    requires DispositionShape(v, t, n)
    requires n + 1 < p <= q < |v|
    requires forall k :: n + 1 <= k < p ==> IsTokenChar(v[k])
    requires forall k :: p <= k < q ==> IsSpaceOrTab(v[k])
    requires !IsSpaceOrTab(v[q]) && v[q] != '\r' && v[q] != ';'
    requires p < q || !IsTokenChar(v[q])
    ensures !ContentDispositionParses(v)
  {
    DispositionScan(v, t, n);
    ParameterStopsAtStray(v, t, n, p, q);
    ParameterLoopStops(v, t + 1, t + 2, q);
  }

  /** In that case the `filename` parameter ends at the stray character. */
  lemma ParameterStopsAtStray(v: string, t: nat, n: nat, p: nat, q: nat)
    requires DispositionShape(v, t, n)
    requires n + 1 < p <= q < |v|
    requires forall k :: n + 1 <= k < p ==> IsTokenChar(v[k])
    requires forall k :: p <= k < q ==> IsSpaceOrTab(v[k])
    requires !IsSpaceOrTab(v[q]) && v[q] != '\r' && v[q] != ';'
    requires p < q || !IsTokenChar(v[q])
    ensures NameValueEnd(v, t + 2) == q
    ensures WhitespaceEnd(v, q) == q
  {
    NameThenValue(v, t, n);
    TokenValueThenStray(v, n + 1, p, q);
  }

  /** The parameter loop stops after a parameter that is followed, past its
      white space, by something other than ';'. */
  lemma ParameterLoopStops(s: string, start: nat, cur: nat, e: nat)
    requires start <= cur < e < |s|
    requires NameValueEnd(s, cur) == e && WhitespaceEnd(s, e) == e && s[e] != ';'
    ensures NameValueListLoop(s, start, cur) == e
  {
  }

  /** `Content-Disposition` is a token, so adding it turns on its value alone. */
  lemma DispositionAccepted(v: string)
    ensures AddAccepts("Content-Disposition", v) <==> ContentDispositionParses(v)
  {
    var n := "Content-Disposition";
    assert forall k :: 0 <= k < |n| ==> 'a' <= n[k] <= 'z' || 'A' <= n[k] <= 'Z' || n[k] == '-';
  }

  /** `type/subtype` made of two tokens is a well-formed Content-Type. */
  lemma MediaTypeOfTokens(t: string, u: string)
    requires IsToken(t) && IsToken(u)
    ensures MediaTypeParses(t + "/" + u)
  {
    var v := t + "/" + u;
    var c := |t|;
    assert forall k :: 0 <= k < c ==> v[k] == t[k];
    assert forall k :: c + 1 <= k < |v| ==> v[k] == u[k - c - 1];
    WhitespaceEndAt(v, 0, 0);
    TokenEndAt(v, 0, c);
    WhitespaceEndAt(v, c, c);
    WhitespaceEndAt(v, c + 1, c + 1);
    TokenEndAt(v, c + 1, |v|);
    WhitespaceEndAt(v, |v|, |v|);
    assert MediaTypeEnd(v, 0) == |v|;
  }

  /** `application/octet-stream` is a well-formed Content-Type. */
  lemma OctetStreamAccepted()
    ensures AddAccepts("Content-Type", "application" + "/" + "octet-stream")
  {
    var t, u, n := "application", "octet-stream", "Content-Type";
    assert forall k :: 0 <= k < |t| ==> 'a' <= t[k] <= 'z';
    assert forall k :: 0 <= k < |u| ==> 'a' <= u[k] <= 'z' || u[k] == '-';
    assert forall k :: 0 <= k < |n| ==> 'a' <= n[k] <= 'z' || 'A' <= n[k] <= 'Z' || n[k] == '-';
    MediaTypeOfTokens(t, u);
  }
}
