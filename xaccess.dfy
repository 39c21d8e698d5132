/**
 * The access logger of xaccess.go as pure functions. After the wrapped handler
 * returns, the middleware classifies the request from the context's error and
 * the status code the handler wrote. It then builds a two-entry tag list, sends
 * a timing and a histogram observation, and writes one structured log entry.
 * Clock readings, the status and the byte count captured by the writer
 * wrapper are parameters here.
 */
module AccessLog {
  import opened Decimal

  /** What `ctx.Err()` returns: nil, one of the two sentinel errors of the context package, or any other error. */
  datatype CtxErr = Nil | DeadlineExceeded | Canceled | Other(msg: string)

  /** The request fields the logger reads: `r.Method` and `r.URL.String()`. */
  datatype Request = Request(httpMethod: string, uri: string)

  /** A value of the `xlog.F` field map (a Go `interface{}`). */
  datatype Value = Str(s: string) | Int(i: int) | Nanos(nanos: int)

  /** A metric observation sent to the xstats sink. */
  datatype Observation =
    | Timing(name: string, nanos: int, tags: seq<string>)
    | Histogram(name: string, value: nat, tags: seq<string>)

  datatype Level = Info

  /** One `log.Infof` call: level, formatted message and field map. */
  datatype LogEntry = LogEntry(level: Level, message: string, fields: map<Field, Value>)

  /** Everything one request emits, in emission order. */
  datatype Emission = Emission(observations: seq<Observation>, log: LogEntry)

  /**
   * `responseStatus`: cancellation of the context wins over the status code.
   * A deadline gives "timeout" and any other context error gives "canceled".
   * Without a context error, 2xx gives "ok" and every other code gives "error".
   */
  function ResponseStatus(err: CtxErr, statusCode: int): (status: string)
    ensures status in {"timeout", "canceled", "ok", "error"}
    ensures status == "timeout" <==> err == DeadlineExceeded
    ensures status == "canceled" <==> err != Nil && err != DeadlineExceeded
    ensures status == "ok" <==> err == Nil && 200 <= statusCode < 300
    ensures status == "error" <==> err == Nil && (statusCode < 200 || 300 <= statusCode)
  {
    if err != Nil then
      if err == DeadlineExceeded then "timeout" else "canceled"
    else if 200 <= statusCode < 300 then "ok"
    else "error"
  }

  /** Once the context reports an error, the status code plays no part in the classification. */
  lemma ResponseStatusIgnoresCode(err: CtxErr, code1: int, code2: int)
    requires err != Nil
    ensures ResponseStatus(err, code1) == ResponseStatus(err, code2)
    ensures ResponseStatus(err, code1) == (if err == DeadlineExceeded then "timeout" else "canceled")
  {
  }

  /** The assertions of `TestResponseStatus`. */
  lemma ResponseStatusExamples()
    ensures ResponseStatus(Nil, 200) == "ok"
    ensures ResponseStatus(Canceled, 200) == "canceled"
    ensures ResponseStatus(DeadlineExceeded, 200) == "timeout"
    ensures ResponseStatus(Nil, 302) == "error"
  {
  }

  /** Index of the first occurrence of `c` in `s`, or `|s|` when there is none. */
  function IndexOf(s: string, c: char): (k: nat)
    ensures k <= |s|
    ensures forall j :: 0 <= j < k ==> s[j] != c
    ensures k < |s| ==> s[k] == c
    decreases |s|
  {
    if s == [] then 0
    else if s[0] == c then 0
    else 1 + IndexOf(s[1..], c)
  }

  /** Index of the last occurrence of `c` in `s`, or -1 when there is none. */
  function LastIndexOf(s: string, c: char): (k: int)
    ensures -1 <= k < |s|
    ensures forall j :: k < j < |s| ==> s[j] != c
    ensures 0 <= k ==> s[k] == c
    decreases |s|
  {
    if s == [] then -1
    else if s[|s| - 1] == c then |s| - 1
    else LastIndexOf(s[..|s| - 1], c)
  }

  /** A character found at `k`, with none before it, is where `IndexOf` stops. */
  lemma IndexOfIs(s: string, c: char, k: nat)
    requires k < |s| && s[k] == c
    requires forall j :: 0 <= j < k ==> s[j] != c
    ensures IndexOf(s, c) == k
  {
  }

  /** Splits a `key:value` tag at its first colon. */
  function SplitTag(tag: string): Option<(string, string)> {
    var k := IndexOf(tag, ':');
    if k < |tag| then Some((tag[..k], tag[k + 1..])) else None
  }

  /** `SplitTag` undoes the joining of a key without colons and any value. */
  lemma SplitTagJoin(key: string, value: string)
    requires forall j :: 0 <= j < |key| ==> key[j] != ':'
    ensures SplitTag(key + ":" + value) == Some((key, value))
  {
    var t := key + ":" + value;
    IndexOfIs(t, ':', |key|);
    assert t[..|key|] == key;
    assert t[|key| + 1..] == value;
  }

  /**
   * The tag list of one request: the classification first, then the status
   * code in `strconv.Itoa` form. Each tag splits back into its key and a value
   * from which the classification and the code are recovered.
   */
  function Tags(status: string, statusCode: int): (tags: seq<string>)
    ensures |tags| == 2
    ensures SplitTag(tags[0]) == Some(("status", status))
    ensures SplitTag(tags[1]) == Some(("status_code", Itoa(statusCode)))
  {
    SplitTagJoin("status", status);
    assert "status:" + status == "status" + ":" + status;
    SplitTagJoin("status_code", Itoa(statusCode));
    assert "status_code:" + Itoa(statusCode) == "status_code" + ":" + Itoa(statusCode);
    ["status:" + status, "status_code:" + Itoa(statusCode)]
  }

  /** The tag list loses nothing: the classification and the status code are read back from it. */
  lemma TagsRoundTrip(status: string, statusCode: int)
    ensures var tags := Tags(status, statusCode);
            && SplitTag(tags[0]) == Some(("status", status))
            && SplitTag(tags[1]).Some? && SplitTag(tags[1]).value.0 == "status_code"
            && ParseInt(SplitTag(tags[1]).value.1) == Some(statusCode)
  {
    ParseItoa(statusCode);
  }

  /**
   * The message `"%s %s %03d"`: the method, the URI verbatim (not truncated),
   * and the status code padded with zeros to at least three characters.
   */
  function Message(httpMethod: string, uri: string, statusCode: int): (m: string)
    ensures |m| >= |httpMethod| + |uri| + 5
    ensures m[..|httpMethod|] == httpMethod && m[|httpMethod|] == ' '
    ensures m[|httpMethod| + 1..|httpMethod| + 1 + |uri|] == uri
    ensures m[|httpMethod| + 1 + |uri|..] == " " + Format03d(statusCode)
  {
    JoinSlices(httpMethod, uri, Format03d(statusCode));
    httpMethod + " " + uri + " " + Format03d(statusCode)
  }

  /** The three parts of `a + " " + b + " " + c` sit where they were put. */
  lemma JoinSlices(a: string, b: string, c: string)
    ensures var m := a + " " + b + " " + c;
            && m[..|a|] == a && m[|a|] == ' '
            && m[|a| + 1..|a| + 1 + |b|] == b
            && m[|a| + 1 + |b|..] == " " + c
  {
    var m := a + " " + b + " " + c;
    assert m[..|a|] == a;
    assert m[|a| + 1..|a| + 1 + |b|] == b;
    assert m[|a| + 1 + |b|..] == " " + c;
  }

  /**
   * Reads a message back: the method up to the first space, the status code
   * after the last space, and the URI between them.
   */
  function ParseMessage(m: string): Option<(string, string, int)> {
    var i := IndexOf(m, ' ');
    var j := LastIndexOf(m, ' ');
    if i < j then
      match ParseInt(MessageCode(m))
      case Some(code) => Some((m[..i], m[i + 1..j], code))
      case None => None
    else None
  }

  /** The part of a message after its last space. */
  function MessageCode(m: string): string {
    m[LastIndexOf(m, ' ') + 1..]
  }

  /** The space in front of a space-free suffix is the last one. */
  lemma {:induction false} LastSpaceBefore(p: string, c: string)
    requires forall k :: 0 <= k < |c| ==> c[k] != ' '
    ensures LastIndexOf(p + " " + c, ' ') == |p|
    ensures (p + " " + c)[|p| + 1..] == c
    decreases |c|
  {
    var m := p + " " + c;
    if c != [] {
      assert m[..|m| - 1] == p + " " + c[..|c| - 1];
      LastSpaceBefore(p, c[..|c| - 1]);
    }
    assert m[|p| + 1..] == c;
  }

  /** Where the last space of `a + " " + b + " " + c` is, when `c` is a rendered integer. */
  lemma LastSpaceOfJoin(a: string, b: string, c: string)
    requires SignedDigits(c)
    ensures LastIndexOf(a + " " + b + " " + c, ' ') == |a| + 1 + |b|
    ensures MessageCode(a + " " + b + " " + c) == c
  {
    assert forall k :: 0 <= k < |c| ==> c[k] != ' ';
    LastSpaceBefore(a + " " + b, c);
  }

  /** Where the first space of `a + " " + b + " " + c` is, when `a` has no space. */
  lemma FirstSpaceOfJoin(a: string, b: string, c: string)
    requires forall j :: 0 <= j < |a| ==> a[j] != ' '
    ensures IndexOf(a + " " + b + " " + c, ' ') == |a|
  {
    var m := a + " " + (b + " " + c);
    assert m == a + " " + b + " " + c;
    assert forall k :: 0 <= k < |a| ==> m[k] == a[k];
    IndexOfIs(m, ' ', |a|);
  }

  /** `ParseMessage` undoes the joining of a method without spaces, any URI and a rendered code. */
  lemma ParseMessageJoin(a: string, b: string, c: string, code: int)
    requires forall j :: 0 <= j < |a| ==> a[j] != ' '
    requires SignedDigits(c) && ParseInt(c) == Some(code)
    ensures ParseMessage(a + " " + b + " " + c) == Some((a, b, code))
  {
    var m := a + " " + b + " " + c;
    FirstSpaceOfJoin(a, b, c);
    LastSpaceOfJoin(a, b, c);
    assert m[..|a|] == a;
    assert m[|a| + 1..|a| + 1 + |b|] == b;
  }

  /** The status code is recovered from the message whatever the method and the URI. */
  lemma MessageCodeRecovered(httpMethod: string, uri: string, statusCode: int)
    ensures ParseInt(MessageCode(Message(httpMethod, uri, statusCode))) == Some(statusCode)
  {
    LastSpaceOfJoin(httpMethod, uri, Format03d(statusCode));
    Format03dRoundTrip(statusCode);
  }

  /**
   * The message loses nothing: for a method without spaces, the method, the URI
   * (which may contain spaces) and the status code are all recovered.
   */
  lemma MessageRoundTrip(httpMethod: string, uri: string, statusCode: int)
    requires forall j :: 0 <= j < |httpMethod| ==> httpMethod[j] != ' '
    ensures ParseMessage(Message(httpMethod, uri, statusCode)) == Some((httpMethod, uri, statusCode))
  {
    Format03dRoundTrip(statusCode);
    ParseMessageJoin(httpMethod, uri, Format03d(statusCode), statusCode);
  }

  /** The keys of the `xlog.F` map of the access entry. */
  datatype Field = Method | Uri | Type | Status | StatusCode | Duration | Size {
    /** The key under which xlog stores the field. */
    function Key(): string {
      match this
      case Method => "method"
      case Uri => "uri"
      case Type => "type"
      case Status => "status"
      case StatusCode => "status_code"
      case Duration => "duration"
      case Size => "size"
    }
  }

  /** Every field, so that the entry always carries the same seven keys. */
  const AllFields: set<Field> := {Method, Uri, Type, Status, StatusCode, Duration, Size}

  /** Distinct fields are stored under distinct keys, so no field of the map shadows another. */
  lemma KeysDistinct(f: Field, g: Field)
    ensures f.Key() == g.Key() <==> f == g
  {
    if f != g {
      assert f.Key()[0] != g.Key()[0] || |f.Key()| != |g.Key()|;
    }
  }

  /** The `xlog.F` field map of the access log entry: every field present, the type fixed to "access". */
  function Fields(req: Request, status: string, statusCode: int, durationNanos: int, size: nat): (f: map<Field, Value>)
    ensures f.Keys == AllFields
    ensures f[Type] == Str("access")
  {
    map[
      Method := Str(req.httpMethod),
      Uri := Str(req.uri),
      Type := Str("access"),
      Status := Str(status),
      StatusCode := Int(statusCode),
      Duration := Nanos(durationNanos),
      Size := Int(size)
    ]
  }

  /**
   * What `ServeHTTPC` emits once the handler has returned: the timing, then the
   * size histogram, both with the same tags, then one info entry.
   */
  function Access(req: Request, err: CtxErr, statusCode: int, bytesWritten: nat, durationNanos: int): (e: Emission)
    ensures |e.observations| == 2
    ensures e.observations[0].Timing? && e.observations[0].name == "request_time"
    ensures e.observations[1].Histogram? && e.observations[1].name == "request_size"
    ensures e.observations[0].tags == e.observations[1].tags
    ensures e.log.level == Info && e.log.fields.Keys == AllFields
  {
    var status := ResponseStatus(err, statusCode);
    var tags := Tags(status, statusCode);
    Emission(
      [Timing("request_time", durationNanos, tags), Histogram("request_size", bytesWritten, tags)],
      LogEntry(Info, Message(req.httpMethod, req.uri, statusCode), Fields(req, status, statusCode, durationNanos, bytesWritten)))
  }

  /**
   * The tags, the structured fields and the message of one request agree: the
   * fields hold the inputs (the full URI, the byte count, the duration, the
   * classification of the status code), both observations carry the tags of the
   * logged status and code, and the message is the rendering of the logged
   * method, URI and code. With `TagsRoundTrip` and `MessageRoundTrip`, every
   * value in the tags and the message is read back equal to the field it mirrors.
   */
  lemma AccessConsistent(req: Request, err: CtxErr, statusCode: int, bytesWritten: nat, durationNanos: int)
    ensures var e := Access(req, err, statusCode, bytesWritten, durationNanos);
            var f := e.log.fields;
            && f[Method] == Str(req.httpMethod)
            && f[Uri] == Str(req.uri)
            && f[Type] == Str("access")
            && f[Status] == Str(ResponseStatus(err, statusCode))
            && f[StatusCode] == Int(statusCode)
            && f[Duration] == Nanos(durationNanos) && e.observations[0].nanos == durationNanos
            && f[Size] == Int(bytesWritten) && e.observations[1].value == bytesWritten
            && e.observations[0].tags == Tags(f[Status].s, f[StatusCode].i)
            && e.observations[1].tags == Tags(f[Status].s, f[StatusCode].i)
            && e.log.message == Message(f[Method].s, f[Uri].s, f[StatusCode].i)
  {
    var status := ResponseStatus(err, statusCode);
    var e := Access(req, err, statusCode, bytesWritten, durationNanos);
    assert e.log.fields == Fields(req, status, statusCode, durationNanos, bytesWritten);
  }

  lemma Render202()
    ensures Itoa(202) == "202" && Format03d(202) == "202"
  {
    assert Digits(2) == "2";
    assert Digits(20) == "20";
    assert Digits(202) == "202";
  }

  /** The message of the first request of `TestNewHandler`: GET /path answered with 202. */
  lemma MessageExample()
    ensures Message("GET", "/path", 202) == "GET /path 202"
  {
    Render202();
    assert "GET" + " " + "/path" + " " + "202" == "GET /path 202";
  }

  /** The tags of that request. */
  lemma TagsExample()
    ensures Tags(ResponseStatus(Nil, 202), 202) == ["status:ok", "status_code:202"]
  {
    Render202();
    assert "status:" + "ok" == "status:ok";
    assert "status_code:" + "202" == "status_code:202";
  }

  /** The first request of `TestNewHandler`: GET /path, the handler writes 202 and three bytes. */
  lemma AccessExample(req: Request, err: CtxErr, statusCode: int, bytesWritten: nat, durationNanos: int)
    requires req == Request("GET", "/path") && err == Nil && statusCode == 202 && bytesWritten == 3
    ensures var e := Access(req, err, statusCode, bytesWritten, durationNanos);
            && e.log.message == "GET /path 202"
            && e.log.fields[Status] == Str("ok")
            && e.log.fields[StatusCode] == Int(202)
            && e.log.fields[Size] == Int(3)
            && e.log.fields[Type] == Str("access")
            && e.observations[0].tags == ["status:ok", "status_code:202"]
  {
    MessageExample();
    TagsExample();
    AccessConsistent(req, err, statusCode, bytesWritten, durationNanos);
  }
}
