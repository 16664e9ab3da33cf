/**
  The data-URL handling of the application: the payload is the second field of
  the URL split at commas, the MIME type is the capture of the regular expression
  `data:(.*);base64,` (falling back to JPEG), and the remote result is wrapped
  back into a JPEG data URL.
 */
module DataUrl {
  import opened Wrappers

  const DataPrefix := "data:"
  const Base64Marker := ";base64,"
  const DefaultMimeType := "image/jpeg"

  /** The data URL `data:<mimeType>;base64,<payload>`. */
  function Encode(mimeType: string, payload: string): (url: string)
    ensures |url| == |DataPrefix| + |mimeType| + |Base64Marker| + |payload|
    ensures url[..|DataPrefix|] == DataPrefix
    ensures url[|DataPrefix|..|DataPrefix| + |mimeType|] == mimeType
    ensures url[|DataPrefix| + |mimeType|..|url| - |payload|] == Base64Marker
    ensures url[|url| - |payload|..] == payload
  {
    DataPrefix + mimeType + Base64Marker + payload
  }

  /** The generated image: the remote result wrapped as a JPEG data URL. */
  function Wrap(payload: string): (url: string)
    ensures |url| == |"data:image/jpeg;base64,"| + |payload|
    ensures url[..|DataPrefix| + |DefaultMimeType| + |Base64Marker|] == "data:image/jpeg;base64,"
    ensures url[|url| - |payload|..] == payload
  {
    Encode(DefaultMimeType, payload)
  }

  // ---------------------------------------------------------------------------
  // Splitting at commas, as `String.prototype.split(',')` does
  // ---------------------------------------------------------------------------

  /** The index of the first occurrence of `c` in `s`. */
  function FirstIndex(s: string, c: char): (i: nat)
    requires c in s
    ensures i < |s| && s[i] == c && c !in s[..i]
  {
    if s[0] == c then 0
    else
      var i := FirstIndex(s[1..], c) + 1;
      assert s[..i] == [s[0]] + s[1..][..i - 1];
      i
  }

  /** Any index holding the first occurrence of `c` is the one FirstIndex finds. */
  lemma FirstIndexUnique(s: string, c: char, i: nat)
    requires i < |s| && s[i] == c && c !in s[..i]
    ensures FirstIndex(s, c) == i
  {
    var f := FirstIndex(s, c);
    assert forall k :: 0 <= k < i ==> s[..i][k] == s[k];
    assert forall k :: 0 <= k < f ==> s[..f][k] == s[k];
  }

  /** The fields joined with commas between them; the inverse of Split. */
  function Join(fields: seq<string>): string {
    if |fields| == 0 then ""
    else if |fields| == 1 then fields[0]
    else fields[0] + "," + Join(fields[1..])
  }

  /** The fields of `s` between its commas: at least one field, none holding a comma, and joining them gives `s` back. */
  function Split(s: string): (fields: seq<string>)
    ensures |fields| >= 1
    ensures Join(fields) == s
    ensures forall k :: 0 <= k < |fields| ==> ',' !in fields[k]
    decreases |s|
  {
    if ',' !in s then [s]
    else
      var i := FirstIndex(s, ',');
      var rest := Split(s[i + 1..]);
      assert s == s[..i] + "," + s[i + 1..];
      assert ([s[..i]] + rest)[1..] == rest;
      [s[..i]] + rest
  }

  /** Splitting the comma-joined fields gives those fields back, when none holds a comma. */
  lemma {:induction false} SplitJoin(fields: seq<string>)
    requires |fields| >= 1
    requires forall k :: 0 <= k < |fields| ==> ',' !in fields[k]
    ensures Split(Join(fields)) == fields
  {
    if |fields| > 1 {
      var s := Join(fields);
      var head := fields[0];
      assert s == head + "," + Join(fields[1..]);
      assert s[|head|] == ',' && s[..|head|] == head;
      FirstIndexUnique(s, ',', |head|);
      assert s[|head| + 1..] == Join(fields[1..]);
      SplitJoin(fields[1..]);
    }
  }

  /** `url.split(',')[1]`: the second field, undefined when there is no comma. */
  function Payload(url: string): (p: Option<string>)
    ensures p.None? <==> ',' !in url
    ensures p.Some? ==> ',' !in p.value
  {
    var fields := Split(url);
    if |fields| > 1 then Some(fields[1]) else None
  }

  /** The payload is the text between the first comma and the next comma or the end. */
  lemma PayloadIsSecondField(head: string, payload: string, tail: string)
    requires ',' !in head && ',' !in payload
    requires tail == "" || tail[0] == ','
    ensures Payload(head + "," + payload + tail) == Some(payload)
  {
    if tail == "" {
      assert head + "," + payload + tail == Join([head, payload]);
      SplitJoin([head, payload]);
    } else {
      var rest := Split(tail[1..]);
      var fields := [head, payload] + rest;
      assert fields[2..] == rest;
      assert Join(fields[1..]) == payload + "," + Join(rest);
      assert tail == "," + tail[1..];
      assert head + "," + payload + tail == Join(fields);
      SplitJoin(fields);
    }
  }

  // ---------------------------------------------------------------------------
  // The MIME type: `url.match(/data:(.*);base64,/)?.[1] || 'image/jpeg'`
  // ---------------------------------------------------------------------------

  /** The characters that `.` of a JavaScript regular expression does not match. */
  predicate LineTerminator(c: char) {
    c == '\n' || c == '\r' || c == '\U{2028}' || c == '\U{2029}'
  }

  /** `;base64,` occurs in `s` at index `j`. */
  predicate MarkerAt(s: string, j: int) {
    0 <= j && j + |Base64Marker| <= |s| && s[j..j + |Base64Marker|] == Base64Marker
  }

  /** The regular expression matches `s[i..j + 8]`, with group 1 spanning `s[i + 5..j]`. */
  ghost predicate MatchAt(s: string, i: int, j: int) {
    && 0 <= i && i + |DataPrefix| <= j
    && MarkerAt(s, j)
    && s[i..i + |DataPrefix|] == DataPrefix
    && forall k :: i + |DataPrefix| <= k < j ==> !LineTerminator(s[k])
  }

  /** The match JavaScript reports: the leftmost start, and for it the longest group (greedy `.*`). */
  ghost predicate IsCapture(s: string, i: int, j: int) {
    && MatchAt(s, i, j)
    && (forall i', j' :: 0 <= i' < i ==> !MatchAt(s, i', j'))
    && (forall j' :: j < j' ==> !MatchAt(s, i, j'))
  }

  /** The marker ends in a comma. */
  lemma MarkerEndsInComma(s: string, j: int)
    ensures MarkerAt(s, j) ==> s[j + |Base64Marker| - 1] == ','
  {
    if MarkerAt(s, j) {
      assert s[j + |Base64Marker| - 1] == s[j..j + |Base64Marker|][|Base64Marker| - 1];
    }
  }

  /** Two leftmost-greedy matches are the same match. */
  lemma CaptureUnique(s: string, i: int, j: int, i': int, j': int)
    requires IsCapture(s, i, j) && IsCapture(s, i', j')
    ensures i == i' && j == j'
  {
  }

  /** The first line terminator at or after `k`, or the end of `s`. */
  function LineEnd(s: string, k: nat): (e: nat)
    requires k <= |s|
    ensures k <= e <= |s|
    ensures forall x :: k <= x < e ==> !LineTerminator(s[x])
    ensures e < |s| ==> LineTerminator(s[e])
    decreases |s| - k
  {
    if k == |s| || LineTerminator(s[k]) then k else LineEnd(s, k + 1)
  }

  /** The last occurrence of the marker at an index in `[lo, hi]`, searching backwards as the greedy `.*` does. */
  function LastMarker(s: string, lo: nat, hi: nat): (r: Option<nat>)
    requires lo <= hi
    ensures r.Some? ==> lo <= r.value <= hi && MarkerAt(s, r.value)
    ensures r.Some? ==> forall x :: r.value < x <= hi ==> !MarkerAt(s, x)
    ensures r.None? ==> forall x :: lo <= x <= hi ==> !MarkerAt(s, x)
    decreases hi - lo
  {
    if MarkerAt(s, hi) then Some(hi)
    else if hi == lo then None
    else LastMarker(s, lo, hi - 1)
  }

  /** The regular expression tried at every start index from `i` on, leftmost first. */
  function SearchFrom(s: string, i: nat): (r: Option<(nat, nat)>)
    requires i <= |s|
    ensures r.None? ==> forall i', j :: i <= i' ==> !MatchAt(s, i', j)
    ensures r.Some? ==> i <= r.value.0 && MatchAt(s, r.value.0, r.value.1)
    ensures r.Some? ==> forall i', j :: i <= i' < r.value.0 ==> !MatchAt(s, i', j)
    ensures r.Some? ==> forall j :: r.value.1 < j ==> !MatchAt(s, r.value.0, j)
    decreases |s| - i
  {
    if i + |DataPrefix| > |s| then None
    else
      var next := SearchFrom(s, i + 1);
      if s[i..i + |DataPrefix|] != DataPrefix then next
      else
        var e := LineEnd(s, i + |DataPrefix|);
        match LastMarker(s, i + |DataPrefix|, e)
        case Some(j) => Some((i, j))
        case None => next
  }

  /** The span of group 1 in the match JavaScript reports, if the expression matches. */
  function CaptureSpan(s: string): (r: Option<(nat, nat)>)
    ensures r.None? <==> forall i, j :: !MatchAt(s, i, j)
    ensures r.Some? ==> IsCapture(s, r.value.0, r.value.1)
  {
    SearchFrom(s, 0)
  }

  /** `url.match(/data:(.*);base64,/)?.[1]`. */
  function MimeCapture(url: string): (m: Option<string>)
    ensures m.None? <==> forall i, j :: !MatchAt(url, i, j)
  {
    match CaptureSpan(url)
    case Some((i, j)) => Some(url[i + |DataPrefix|..j])
    case None => None
  }

  /** The MIME type sent with the payload: the capture, or JPEG when there is none or it is empty. */
  function MimeType(url: string): (m: string)
    ensures m != ""
    ensures m == DefaultMimeType || MimeCapture(url) == Some(m)
  {
    match MimeCapture(url)
    case Some(c) => if c != "" then c else DefaultMimeType
    case None => DefaultMimeType
  }

  /** The value of `match(...)?.[1]` is group 1 of the match JavaScript reports. */
  lemma MimeCaptureValue(url: string, i: int, j: int)
    requires IsCapture(url, i, j)
    ensures MimeCapture(url) == Some(url[i + |DataPrefix|..j])
  {
    var span := CaptureSpan(url);
    CaptureUnique(url, span.value.0, span.value.1, i, j);
  }

  /** The MIME type is the non-empty group 1 of the reported match, and JPEG when that group is empty. */
  lemma MimeTypeValue(url: string, i: int, j: int)
    requires IsCapture(url, i, j)
    ensures i + |DataPrefix| < j ==> MimeType(url) == url[i + |DataPrefix|..j]
    ensures i + |DataPrefix| == j ==> MimeType(url) == DefaultMimeType
  {
    MimeCaptureValue(url, i, j);
  }

  /** Without any match the MIME type is JPEG. */
  lemma MimeTypeWithoutMatch(url: string)
    requires forall i, j :: !MatchAt(url, i, j)
    ensures MimeType(url) == DefaultMimeType
  {
  }

  // ---------------------------------------------------------------------------
  // Round trips
  // ---------------------------------------------------------------------------

  /** The group of the expression in `data:<m>;base64,<p>` is exactly `m`. */
  lemma CaptureOfEncoded(m: string, p: string)
    requires forall k :: 0 <= k < |m| ==> !LineTerminator(m[k])
    requires ',' !in p
    ensures MimeCapture(Encode(m, p)) == Some(m)
  {
    var s := Encode(m, p);
    var j := |DataPrefix| + |m|;
    assert s[..|DataPrefix|] == DataPrefix;
    assert s[j..j + |Base64Marker|] == Base64Marker;
    assert s[|DataPrefix|..j] == m;
    assert MatchAt(s, 0, j);
    assert forall x :: j + |Base64Marker| <= x < |s| ==> s[x] == p[x - (j + |Base64Marker|)];
    forall j' | j < j'
      ensures !MatchAt(s, 0, j')
    {
      MarkerEndsInComma(s, j');
    }
    assert IsCapture(s, 0, j);
    var span := CaptureSpan(s);
    CaptureUnique(s, span.value.0, span.value.1, 0, j);
  }

  /** Parsing `data:<m>;base64,<p>` gives back payload `p` and MIME type `m`. */
  lemma ParseEncoded(m: string, p: string)
    requires m != "" && ',' !in m && forall k :: 0 <= k < |m| ==> !LineTerminator(m[k])
    requires ',' !in p
    ensures Payload(Encode(m, p)) == Some(p)
    ensures MimeType(Encode(m, p)) == m
  {
    var head := DataPrefix + m + ";base64";
    assert Encode(m, p) == head + "," + p + "";
    PayloadIsSecondField(head, p, "");
    CaptureOfEncoded(m, p);
  }

  /** Parsing the generated JPEG data URL gives back the remote result and `image/jpeg`. */
  lemma ParseWrapped(result: string)
    requires ',' !in result
    ensures Payload(Wrap(result)) == Some(result)
    ensures MimeType(Wrap(result)) == DefaultMimeType
  {
    ParseEncoded(DefaultMimeType, result);
  }

  /** An empty MIME type in the URL falls back to JPEG, since `||` treats `""` as false. */
  lemma EmptyMimeTypeFallsBack(p: string)
    requires ',' !in p
    ensures Payload(Encode("", p)) == Some(p)
    ensures MimeType(Encode("", p)) == DefaultMimeType
  {
    assert Encode("", p) == DataPrefix + ";base64" + "," + p + "";
    PayloadIsSecondField(DataPrefix + ";base64", p, "");
    CaptureOfEncoded("", p);
  }

  /** A string without a comma has no payload and no match, so its MIME type is JPEG. */
  lemma NoCommaNoPayload(url: string)
    requires ',' !in url
    ensures Payload(url) == None
    ensures MimeType(url) == DefaultMimeType
  {
    forall i, j
      ensures !MatchAt(url, i, j)
    {
      MarkerEndsInComma(url, j);
    }
  }

  /** The greedy `.*` runs to the last marker on the line, so a marker inside the payload ends up in the MIME type. */
  lemma GreedyCapture(m: string, x: string, y: string)
    requires ',' !in m && forall k :: 0 <= k < |m| ==> !LineTerminator(m[k])
    requires ',' !in x && forall k :: 0 <= k < |x| ==> !LineTerminator(x[k])
    requires ',' !in y
    ensures MimeCapture(Encode(m, x + Base64Marker + y)) == Some(m + Base64Marker + x)
  {
    var s := Encode(m, x + Base64Marker + y);
    var g := m + Base64Marker + x;
    var j := |DataPrefix| + |g|;
    assert s == DataPrefix + g + Base64Marker + y;
    assert s[..|DataPrefix|] == DataPrefix;
    assert s[j..j + |Base64Marker|] == Base64Marker;
    assert s[|DataPrefix|..j] == g;
    assert forall k :: 0 <= k < |g| ==> !LineTerminator(g[k]);
    assert MatchAt(s, 0, j);
    assert forall k :: j + |Base64Marker| <= k < |s| ==> s[k] == y[k - (j + |Base64Marker|)];
    forall j' | j < j'
      ensures !MatchAt(s, 0, j')
    {
      MarkerEndsInComma(s, j');
    }
    assert IsCapture(s, 0, j);
    MimeCaptureValue(s, 0, j);
  }
}
