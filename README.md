# xaccess access logger, modelled in Dafny

`xaccess` is an HTTP middleware. It wraps a handler. After the handler returns,
it sorts the request into one of four outcomes: `ok`, `error`, `timeout` or
`canceled`. The outcome depends on the state of the request's context and on
the status code the handler wrote. The middleware then builds a two-entry tag
list and sends a `request_time` timing and a `request_size` histogram with it.
Last, it writes one `info` log entry. That entry has the message
`"<method> <uri> <code>"` and a fixed map of seven structured fields.

This project models that logic as pure functions. It proves what the rendered
outputs mean and how they relate to one another.

- `decimal.dfy`, module `Decimal`, models two renderings of the status code.
  `Itoa` renders it the way `strconv.Itoa` does, for the tag. `Format03d`
  renders it the way the `%03d` verb of `fmt` does, for the message: zero-padded
  to at least three characters, with the sign counted in the width. `ParseInt`
  is an independent reference parser. Every rendering parses back to the code
  it came from.
- `xaccess.dfy`, module `AccessLog`, models the rest:
  - `ResponseStatus` classifies the request.
  - `Tags`, `Message` and `Fields` build the tag list, the message and the field map.
  - `Access` is the data flow of `ServeHTTPC` after the handler returns: two
    observations, then one log entry.
  - `SplitTag` and `ParseMessage` read a tag and a message back.

The context's error is a datatype: `Nil`, `DeadlineExceeded`, `Canceled`, or
`Other` for any other error. The status code and the byte count that the
response-writer wrapper captures are plain inputs. So is the measured duration,
given as whole nanoseconds.

The tests expect the URI in the message to be shortened to a head, an ellipsis
and a tail (xaccess_test.go:92, 96-107). The xaccess.go modelled here defines
no `ellipsize` and formats the full `r.URL.String()` (xaccess.go:56); the tests
belong to another revision of the package. The model follows xaccess.go.
`Message` carries the URI unchanged.

## Model

| member | source | states |
|---|---|---|
| `AccessLog.ResponseStatus` | xaccess.go:67-77 | The result is always one of "timeout", "canceled", "ok" and "error". Each label is characterised in both directions: "timeout" exactly when the context error is the deadline, and "canceled" exactly for any other non-nil error. "ok" exactly when there is no error and the code is in [200, 300); "error" exactly when there is no error and the code is outside that range. |
| `AccessLog.ResponseStatusIgnoresCode` | xaccess.go:68-72 | Once the context reports an error, two status codes give the same label: "timeout" for the deadline, "canceled" otherwise. Cancellation wins even over a 2xx code. |
| `AccessLog.ResponseStatusExamples` | xaccess_test.go:49-54 | These give "ok", "canceled", "timeout" and "error": no error with 200, cancellation with 200, a deadline with 200, and no error with 302. |
| `Decimal.Digits` | xaccess.go:49 | The decimal digits of a natural number. There is at least one digit, and the first digit is '0' only when the whole rendering is "0", which happens exactly for 0. |
| `Decimal.Itoa` | xaccess.go:49 | The `strconv.Itoa` rendering is non-empty and made of digits with an optional leading minus sign. It starts with '-' exactly when the code is negative. It is canonical: the digits after the optional sign have no leading zero unless they are exactly "0", and "-0" never occurs. |
| `Decimal.ItoaUnique` | xaccess.go:49 | Every canonical string that the reference parser reads as i is `Itoa(i)`. With `ParseItoa`, `Itoa(i)` is the one canonical rendering of i, so no padded form such as "0202" can be it. |
| `Decimal.ValueOfDigits` | xaccess.go:49 | The digits of n have the value n. |
| `Decimal.ParseItoa` | xaccess.go:49 | Round trip: the reference parser reads `Itoa(i)` back as i. |
| `Decimal.ItoaInjective` | xaccess.go:49 | Two codes have the same `status_code:` tag value exactly when they are equal. |
| `Decimal.Format03d` | xaccess.go:56 | The `%03d` rendering has at least three characters: digits with an optional leading minus sign. |
| `Decimal.Format03dPadsItoa` | xaccess.go:56 | `%03d` only pads `Itoa`. Its length is max(3, length of `Itoa`). It equals `Itoa` once that has three or more characters. It starts with '-' exactly for negative codes. |
| `Decimal.ValueOfLeadingZeros` | xaccess.go:56 | Leading zeros do not change the value of a digit string. |
| `Decimal.Format03dRoundTrip` | xaccess.go:56 | Round trip: the reference parser reads the zero-padded rendering back as the code. |
| `AccessLog.Tags` | xaccess.go:47-50 | There are exactly two tags, in this order. The first splits at its first colon into "status" and the label. The second splits into "status_code" and the `Itoa` rendering of the code. |
| `AccessLog.TagsRoundTrip` | xaccess.go:47-50 | Both the label and the status code are read back from the tag list. |
| `AccessLog.SplitTagJoin` | xaccess.go:48-49 | Splitting at the first colon undoes `key + ":" + value` for any key without a colon. |
| `AccessLog.Message` | xaccess.go:56 | The message starts with the method and a space. The URI follows unchanged and untruncated. The rest is a space followed by the `%03d` rendering of the code, which `Format03dPadsItoa` and `Format03dRoundTrip` describe. The message is at least five characters longer than the method and the URI together. |
| `AccessLog.MessageCodeRecovered` | xaccess.go:56 | The text after the last space of the message parses to the status code, whatever the method and the URI. |
| `AccessLog.MessageRoundTrip` | xaccess.go:56 | Round trip: when the method has no space, the method, the URI (spaces allowed) and the code are all read back from the message. |
| `AccessLog.MessageExample` | xaccess_test.go:78 | The message for GET, "/path" and 202 is "GET /path 202". |
| `AccessLog.TagsExample` | xaccess.go:47-50 | Status 202 with no context error gives the tags "status:ok" and "status_code:202". |
| `AccessLog.KeysDistinct` | xaccess.go:57-63 | Two fields of the map have the same key exactly when they are the same field. So no entry shadows another. |
| `AccessLog.Fields` | xaccess.go:57-63 | The field map has exactly the seven keys, and its `type` is "access". |
| `AccessLog.Access` | xaccess.go:43-64 | A request emits exactly two observations, in order: the `request_time` timing, then the `request_size` histogram. Both carry the same tags. Then comes one info-level entry with all seven fields. |
| `AccessLog.AccessConsistent` | xaccess.go:43-64 | The fields hold the method, the full URI, "access", the classification of the code, the code, the duration and the byte count. The timing carries the duration, and the histogram the byte count. Both tag lists are the tags of the logged status and code. The message is the rendering of the logged method, URI and code. |
| `AccessLog.AccessExample` | xaccess_test.go:56-81 | The test's request: GET "/path", no context error, code 202, 3 bytes. It logs the message "GET /path 202" with status "ok", status_code 202, size 3 and type "access". It is tagged "status:ok" and "status_code:202". |

## Left out

- Clock readings (xaccess.go:31, 40): the duration is an input in whole nanoseconds. The float conversion `reqDur.Seconds()` (xaccess.go:62) is not modelled: the `duration` field keeps the nanoseconds, in the `Nanos` value constructor.
- The histogram value `float64(lw.BytesWritten())` (xaccess.go:52) is kept as the integer byte count. The conversion to floating point is not modelled.
- The response-writer wrapper `mutil.WrapWriter` (xaccess.go:34): the goji `mutil` package is not part of this model. Its default status, and its summing of body writes into a byte count, are therefore not modelled. `Status()` and `BytesWritten()` are inputs.
- Looking up the xstats and xlog sinks in the context, and the sinks themselves (xaccess.go:46, 51-52, 55-56), are foreign I/O. Only the data passed to them is modelled. The fields xlog adds on output (`level`, `time`, and the message under the key `message`) are not modelled; the level is kept as a separate `Info` value.
- The call to the wrapped handler (xaccess.go:37) and `NewHandler` (xaccess.go:24-26) only delegate and store the handler.
- Truncation of the URI in the message (`ellipsize`): the xaccess.go modelled here defines no `ellipsize` and logs the full URI (xaccess.go:56). The truncated message expected at xaccess_test.go:92 and the `ellipsize` cases at xaccess_test.go:96-107 belong to another revision of the package, so they are not modelled.
- `ctx.Err()` is read twice in `responseStatus` (xaccess.go:68-69). The model reads it once, as a value; a context cancelled between the two reads is not modelled.
- Go's `int` is 64 bits wide. Codes and byte counts are unbounded integers here, which has no effect on the renderings for values in that range.
