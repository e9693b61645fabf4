# Arduino RestClient, modelled in Dafny

This project models `RestClient`, a small HTTP/1.1 client for Arduino boards
with an Ethernet shield.

A `RestClient` object holds its configuration:
- a server name or IP address and a port;
- up to `HTTP_MAX_HEADERS` extra header lines;
- a content type;
- a cap on the response length;
- a response timeout.

A request goes through `get`, `post`, `put` or `del`, which all call the
generic `request`. That method:
1. connects;
2. writes the request line, the pending header lines, `Host`,
   `Connection: close`, `Content-Length` and `Content-Type` (with a body), the
   empty line, then the body followed by two CRLFs;
3. calls `readResponse`;
4. clears the pending headers.

`readResponse` reads the reply one byte at a time:
- The three characters other than a space that follow the first space are
  the status digits. Once three are in, the status code is their C `atoi`.
- A line feed that ends a blank line (one holding only carriage returns)
  ends the head.
- After the head, body bytes go into the caller's `String` while it is
  shorter than `maxResponseLength`.
- With no caller buffer, reading stops at the end of the head. When the
  buffer is full, the byte that found it full is read, dropped, and ends the
  read.

The modules:
- `Text`: options, C strings (no NUL inside), and the decimal rendering used
  for `Content-Length` with its parser.
- `CAtoi`: the C `atoi` on a character sequence (white space, sign, digits).
- `Framing`: CRLF-terminated lines and the first line feed ending a blank
  line (`Boundary`).
- `Response`: what reading a reply computes, as functions of the input:
  - `Expected` (code, bytes read, bytes appended) is the independent
    reference;
  - `Step`/`Scan` are the loop of `readResponse` pass by pass, proved equal
    to `Expected`.
- `Request`: the wire image of a request (`RequestImage`), and how a reader
  that frames by the first blank line splits it.
- `Client`: the `RestClient` class, with fields, setters, `SetHeader`,
  `Request` (built from `WriteRequest` and `ReadResponse`) and the verb entry
  points. The class `Str` stands for the caller's Arduino `String`.
  - `ReadResponse` keeps the source's local variables: the `statusCode[4]`
    array, `i`, `inStatus`, `currentLineIsBlank`, `httpBody` and `code`.
  - Its loop body is split into the methods `ReadByte` and `ReadStatusByte`.
  - Each is proved to perform one `Step` of the reference state machine;
    the `break` of the source is the `stop` result.

Transport and time are parameters:
- The `int` result of `connect` is the `connectStatus` argument. The source
  stores it in a `byte`, so the request goes ahead when it is 1 modulo 256
  (`ConnectByte`).
- The bytes the server sends are a finite `incoming` sequence. Its end
  stands for the server disconnecting or the timeout expiring.
- The bytes written are returned as `written`.

## Model

| member | source | states |
|---|---|---|
| Text.NatToDecimal | RestClient.cpp:145 | The `%d` rendering of the body length is at least one digit, all digits, and has no leading zero except for 0 itself. |
| Text.DecimalRoundTrip | RestClient.cpp:144-146 | Parsing the rendered `Content-Length` value gives back the body length. |
| Text.NatToDecimalInjective | RestClient.cpp:145 | Different body lengths give different `Content-Length` values. |
| CAtoi.Atoi | RestClient.cpp:221 | C `atoi`: white space skipped, one optional sign, then the leading digits. The result is negative only after a minus sign. |
| CAtoi.AtoiNulTerminated | RestClient.cpp:219-221 | Writing NUL after the three status characters does not change what `atoi` reads. |
| CAtoi.AtoiThreeDigits | RestClient.cpp:221 | Three decimal digits d0 d1 d2 give 100*d0 + 10*d1 + d2, between 0 and 999. |
| CAtoi.AtoiThreeCharsRange | RestClient.cpp:221 | Any three characters give `atoi` between -99 and 999. |
| CAtoi.AtoiOfDecimal | RestClient.cpp:145 | `atoi` reads the decimal rendering of a number back as that number. |
| Response.Expected | RestClient.cpp:181-255 | The reference result of reading input `s`, with or without a buffer, given the buffer's initial length and the cap. The code is that of the bytes read, and at most all of `s` is read. |
| Response.StatusByte | RestClient.cpp:211-222 | The status part of one pass: the first space sets `inStatus`; after it, a byte other than a space is kept while fewer than three are; once three are kept the code is `atoi` of them with a NUL after. |
| Response.Step | RestClient.cpp:208-249 | One pass of the loop on one byte: the status part, then either appending to the buffer (in the body, while it is under the cap) or `break`, or the blank-line and head-end tracking. Each pass reads exactly one byte. |
| Response.Scan | RestClient.cpp:202-251 | The loop run over the input byte by byte, stopping at the first `break`; at most three status characters are ever kept. |
| Response.StatusCharsSnoc | RestClient.cpp:211-218 | A byte joins the status characters exactly when a space came before it and it is not a space. |
| Response.StatusCodeFrozen | RestClient.cpp:215-222 | Once three status characters are in, no later byte changes the code. |
| Response.StatusCodeRange | RestClient.cpp:219-222 | The code is between -99 and 999. When the three status characters are digits, it is their decimal value, between 0 and 999. |
| Response.ExpectedShape | RestClient.cpp:181-255 | The result of reading, in terms of the head's end:<br>- with no blank line, everything is read and nothing appended;<br>- with no buffer, reading stops on the head's last line feed;<br>- with a buffer, the body bytes that fit under the cap are appended in order, and more are read only when one is dropped;<br>- the buffer never grows past the larger of its initial length and the cap. |
| Response.ExpectedWithoutBoundary | RestClient.cpp:202-251 | A reply without a blank line is read to its end and adds nothing to the buffer. |
| Response.ExpectedStopsAtBoundary | RestClient.cpp:233-238 | With no buffer, reading ends on the line feed that ends the head, whatever follows. |
| Response.ExpectedBodyFits | RestClient.cpp:224-226 | A body that fits under the cap is appended whole, and the whole input is read. |
| Response.ExpectedBufferFull | RestClient.cpp:224-229 | When the buffer fills, the byte after the last one that fits is read and dropped, and reading ends there. |
| Response.ExpectedHalted | RestClient.cpp:224-238 | Once the reader has stopped by itself, bytes that follow change nothing. |
| Response.ScanFrozen | RestClient.cpp:224-238 | After a `break`, the rest of the input does not affect the reader's state. |
| Response.StatusStep | RestClient.cpp:211-222 | One pass of the status code logic keeps three things tied to what was read: `inStatus` means a space was seen, the buffer holds the first three status characters, and `code` is the status code. |
| Response.StepInvariant | RestClient.cpp:208-249 | One pass of the loop keeps the invariant: while it runs, its variables are the read count, status, head end, blank-line flag and buffered body of the prefix; when it breaks, its result is `Expected` of the prefix. |
| Response.ScanInvariant | RestClient.cpp:202-251 | The invariant holds after every prefix of the input. |
| Response.ScanMeetsSpec | RestClient.cpp:181-255 | The byte-at-a-time loop computes exactly `Expected`: the same code, the same number of bytes read, and the same bytes appended. |
| Response.SampleWithAndWithoutBuffer | RestClient.cpp:181-255 | On `HTTP/1.1 200 OK`, one header, a blank line and `Hello`: with a buffer the result is code 200 and `Hello` appended; without one, reading stops after 30 bytes with code 200. |
| Response.SampleTruncated | RestClient.cpp:224-229 | With a cap of 3 the same reply appends `Hel`; one more byte is read and dropped, and the last byte is never read. |
| Framing.BoundaryFirst | RestClient.cpp:233-248 | `Boundary` is the first line feed ending a blank line, and there is none when it finds none. |
| Framing.LineBlankMeans | RestClient.cpp:241-248 | `currentLineIsBlank` means everything since the last line feed is a carriage return. |
| Framing.LineBlankSnoc | RestClient.cpp:241-248 | A line feed makes the line blank, a carriage return leaves the flag as it is, and any other byte clears it. |
| Framing.BoundaryExtends | RestClient.cpp:233-234 | Reading more does not move the end of the head. |
| Framing.HeadFraming | RestClient.cpp:130-153 | CRLF-terminated head lines followed by the empty line are framed at exactly that empty line, whatever follows it. |
| Request.RequestImage | RestClient.cpp:130-159 | The bytes of a request: its head lines each with CRLF, the empty line, and the body part. Every request ends in CRLF CRLF. |
| Request.RequestImageLayout | RestClient.cpp:130-159 | The wire image in the order the client writes it:<br>- the request line;<br>- each pending header with CRLF;<br>- `Host` and `Connection: close`;<br>- with a body, `Content-Length` and `Content-Type`;<br>- the CRLF;<br>- the body and two CRLFs. |
| Request.HeadLinesWellFormed | RestClient.cpp:130-151 | With no line feed in the caller's strings and no header line made only of carriage returns, no head line looks like a line end or an empty line. |
| Request.RequestFraming | RestClient.cpp:130-159 | A reader that frames by the first blank line finds the head's end where the client put it. The declared `Content-Length` is the body's length, the body comes next, and four CRLF bytes follow beyond the declared length. |
| Client.ConnectByte | RestClient.cpp:120-126 | The `byte` that holds `connect`'s result is that result modulo 256. |
| Client.RestClient.Target | RestClient.cpp:121-125 | What `connect` is asked to reach: the host name when one is set, otherwise the address, on the configured port. |
| Client.RestClient.HostText | RestClient.cpp:139 | The text written after `Host: `: the host name, or nothing when there is none. |
| Client.ReadStatusByte | RestClient.cpp:211-222 | The three status `if`s on the `statusCode[4]` array perform the status part of one `Step`. |
| Client.RestClient.ReadByte | RestClient.cpp:208-249 | One pass of the loop body on the source's local variables is one `Step`: the buffer is extended in the body, and the `break` happens exactly when the step stops. |
| Client.RestClient.ReadResponse | RestClient.cpp:181-255 | The returned code, the number of bytes read and the new buffer contents are those `Expected` gives for the input, the buffer's initial length and the cap. |
| Client.RestClient.WriteRequest | RestClient.cpp:129-159 | The bytes written are `RequestImage` of the verb, the path, the pending headers, the host text, the content type and the body. |
| Client.RestClient.Request | RestClient.cpp:115-179 | It connects to the name when one is set, otherwise to the address. When the status byte is 1, it writes the request image, returns what `readResponse` returns, appends what it appends, and clears the pending headers. Otherwise it returns 0, writes nothing, leaves the caller's buffer alone and keeps the headers. |
| Client.RestClient.Get | RestClient.cpp:50-57 | `request` with `GET` and no body. |
| Client.RestClient.Post | RestClient.cpp:60-67 | `request` with `POST` and the body, or no body when it is NULL. |
| Client.RestClient.Put | RestClient.cpp:70-77 | `request` with `PUT` and the body, or no body when it is NULL. |
| Client.RestClient.Del | RestClient.cpp:80-97 | `request` with `DELETE`, with or without a body. |
| Client.RestClient.SetHeader | RestClient.cpp:104-107 | The header goes into the next free slot and the count goes up by one, so the pending headers gain it at the end; nothing else in the array changes. |
| Client.RestClient.constructor | RestClient.cpp:13-22 | No host, address 0.0.0.0, port 80, no headers, `application/json`, the largest `unsigned int` as the cap, and a 300 second timeout. |
| Client.RestClient.SetServer | RestClient.cpp:25-28 | Sets the name (NULL included) and port 80. |
| Client.RestClient.SetServerPort | RestClient.cpp:30-33 | Sets the name (NULL included) and the port. |
| Client.RestClient.SetServerAddress | RestClient.cpp:35-39 | Clears the name and sets the address and port, so requests connect by address. |
| Client.RestClient.SetMaxResponseLength | RestClient.cpp:41-43 | Sets the cap on the response buffer. |
| Client.RestClient.SetResponseTimeout | RestClient.cpp:45-47 | Sets the timeout. |
| Client.RestClient.SetContentType | RestClient.cpp:109-111 | Sets the content type used for requests with a body. |

## Left out

- Timeouts and the transport: `connected()`, `available()`, `millis()` and the timeout test of the read loop are not modelled, so `responseTimeout` is stored but never read. The finite `incoming` sequence stands for everything the server sends before it disconnects or the time runs out, and waiting for bytes (`available()` false) is not modelled.
- `unsigned long` overflow in `millis_start + 1000L*responseTimeout` is not modelled, since time is not modelled.
- The connection calls `client->connect`, `flush` and `stop` only appear through `connectStatus`. `Request` returns the `Endpoint` it would dial. `stop` is called only on the connected path, as in the source.
- Debug printing (`HTTP_DEBUG_PRINT`, `Serial`) has no effect on the behaviour and is left out.
- `write(host)` with no host name writes nothing. This follows the Arduino `Print` class, which ignores a null string; that class is not part of this model.
- `HTTP_MAX_HEADERS` is taken as 8. `RestClient.h` is not part of this model.
- `unsigned int` is taken as 16 bits (AVR), so the default cap is 65535.
- Client.RestClient.SetHeader: the source stores the caller's pointer and reads it only when `request` writes. The model copies the text when the header is set, so a caller who reuses one buffer for two headers gets two lines here but the last contents twice in the source. A NULL header, which the source would write as an empty line, is not modelled.
- Client.RestClient.SetServer: the host name is copied when set. It is not read through the caller's pointer when `request` writes, so later changes to the caller's buffer are not modelled.
- Client.RestClient.SetServerPort: the host name is copied when set, as for `SetServer`.
- Client.RestClient.SetContentType: the content type is copied when set, not read through the pointer when `request` writes. A NULL content type is not modelled.
- Client.RestClient.Post: the path is a non-NULL string that does not change until `request` writes. The body and response buffer may be NULL.
- Client.RestClient.Put: the same assumptions as `Post`.
- Client.RestClient.Get: the path is a non-NULL string that does not change until `request` writes.
- Client.RestClient.Del: the same assumptions as `Post`.
- Client.RestClient.SetHeader: it requires a free slot. The source writes past the array when the caller adds too many headers, and that undefined behaviour is not modelled.
- Client.RestClient.SetMaxResponseLength and Client.RestClient.SetResponseTimeout: both require values that fit in `unsigned int`, instead of modelling the truncation of a wider argument.
- `sprintf` into the 30-byte `contentLength` buffer is modelled for body lengths of any size. The `%d` / `size_t` mismatch is not modelled either.
- `String::concat` failing for lack of memory is not modelled: every append succeeds.
- All strings are character sequences with no NUL inside. They are not byte arrays, and there is no character encoding.
- In the source, a pending header list survives a failed connection and `num_headers` is reset only after a completed exchange; the model does the same.
