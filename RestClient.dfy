/** The `RestClient` object: its configuration fields, the pending header
    lines, the generic `request` that writes a request and reads the reply, the
    byte-at-a-time `readResponse`, and the per-verb entry points.

    The transport is not modelled: the result of `connect` is a parameter, the
    bytes written are returned as a string, and the bytes the server sends are
    a finite sequence whose end stands for both disconnection and timeout. */
module Client {
  import opened Text
  import opened CAtoi
  import opened Framing
  import opened Response
  import opened Request

  /** Capacity of the header array (`HTTP_MAX_HEADERS`). */
  const MaxHeaders: nat := 8
  const DefaultContentType: CString := "application/json"
  const DefaultPort: int := 80
  const DefaultResponseTimeout: nat := 300

  type Octet = n: nat | n < 256

  datatype IpAddress = IpAddress(a: Octet, b: Octet, c: Octet, d: Octet)

  /** What `connect` is asked to reach: a host name, or an address when no
      name is set. */
  datatype Endpoint = ByName(name: CString, port: int) | ByAddress(ip: IpAddress, port: int)

  /** What one call of `request` produces: the status code, the bytes written
      and the bytes added to the caller's buffer. */
  datatype Exchange = Exchange(code: int, written: string, appended: string)

  /** A caller-owned Arduino `String` that the reader appends body bytes to. */
  class Str {
    var value: string

    constructor (s: string)
      ensures value == s
    {
      value := s;
    }
  }

  /** The `byte` that `request` stores the `int` result of `connect` in: the
      result taken modulo 256. `request` goes ahead only when this byte is 1,
      so a result of 257 counts as success as well. */
  function ConnectByte(n: int): (b: Octet)
    ensures (n - b) % 256 == 0
  {
    n % 256
  }

  /** A four-character buffer holding three characters and then NUL. */
  lemma NulTerminatedBuffer(a: array<char>, s: string)
    requires a.Length == 4 && |s| == 3 && a[3] == '\0'
    requires forall k :: 0 <= k < 3 ==> a[k] == s[k]
    ensures a[..] == s + ['\0']
  {
  }

  /** The status part of the reader's local variables holds `st`: the flag,
      the status characters in the first `i` cells of `statusCode`, and the
      code. */
  ghost predicate StatusHolds(st: StatusState, inStatus: bool, i: nat, statusCode: array<char>, code: int)
    reads statusCode
  {
    statusCode.Length == 4 && i <= 3 && inStatus == st.inStatus && i == |st.status| &&
    (forall k :: 0 <= k < i ==> statusCode[k] == st.status[k]) && code == st.code
  }

  /** The status part of one pass of the loop of `readResponse`: the first
      space switches `inStatus` on; after it, up to three characters other
      than a space go into `statusCode`; once it holds three, it is
      NUL-terminated and the code is its `atoi`. */
  method ReadStatusByte(c: char, inStatus: bool, i: nat, statusCode: array<char>, code: int,
                        ghost st: StatusState)
    returns (inStatus': bool, i': nat, code': int)
    requires StatusHolds(st, inStatus, i, statusCode, code)
    modifies statusCode
    ensures StatusHolds(StatusByte(st, c), inStatus', i', statusCode, code')
  {
    ghost var st' := StatusByte(st, c);
    inStatus', i', code' := inStatus, i, code;
    if c == ' ' && !inStatus' {
      inStatus' := true;
    }
    if inStatus' && i' < 3 && c != ' ' {
      statusCode[i'] := c;
      i' := i' + 1;
    }
    if i' == 3 {
      statusCode[i'] := '\0';
      NulTerminatedBuffer(statusCode, st'.status);
      code' := Atoi(statusCode[..]);
    }
  }

  /** Where the reader's loop stops, its state is the state after the whole
      input, and so it is what `Expected` says. */
  lemma FinalState(s: string, pos: nat, hasBuffer: bool, initial: string, maxLen: nat)
    requires pos <= |s|
    requires pos == |s| || Scan(s[..pos], hasBuffer, initial, maxLen).stopped
    ensures var r, o := Scan(s[..pos], hasBuffer, initial, maxLen), Expected(s, hasBuffer, |initial|, maxLen);
      r.st.code == o.code && r.read == o.consumed && r.buffer == initial + o.appended
  {
    assert s == s[..pos] + s[pos..];
    if pos < |s| {
      ScanFrozen(s[..pos], s[pos..], hasBuffer, initial, maxLen);
    } else {
      assert s[..pos] == s;
    }
    assert Scan(s[..pos], hasBuffer, initial, maxLen) == Scan(s, hasBuffer, initial, maxLen);
    ScanMeetsSpec(s, hasBuffer, initial, maxLen);
  }

  class RestClient {
    var host: Option<CString>
    var hostIp: IpAddress
    var port: int
    const headers: array<CString>
    var numHeaders: nat
    var contentType: CString
    var maxResponseLength: nat
    var responseTimeout: nat

    ghost predicate Valid()
      reads this
    {
      headers.Length == MaxHeaders && numHeaders <= MaxHeaders &&
      maxResponseLength <= UIntMax && responseTimeout <= UIntMax
    }

    /** The header lines added since the last request, in order. */
    ghost function Pending(): seq<CString>
      reads this, headers
      requires Valid()
    {
      headers[..numHeaders]
    }

    /** The text `write(host)` puts on the wire: the name, or nothing when the
        client was pointed at an address. */
    function HostText(): string
      reads this
    {
      if host.Some? then host.value else []
    }

    function Target(): Endpoint
      reads this
    {
      if host.Some? then ByName(host.value, port) else ByAddress(hostIp, port)
    }

    /** What a request with these arguments does against a server that sends
        `incoming`, given the headers pending before it and the buffer's
        length: nothing unless the byte `connect`'s result is stored in is 1;
        otherwise the request's wire image is written and the reply is read as
        `Expected` says. */
    function ExpectedExchange(verb: CString, path: CString, pending: seq<CString>,
                              body: Option<CString>, hasBuffer: bool, initialLen: nat,
                              connectStatus: int, incoming: seq<char>): Exchange
      reads this
    {
      if ConnectByte(connectStatus) != 1 then Exchange(0, [], [])
      else
        var o := Expected(incoming, hasBuffer, initialLen, maxResponseLength);
        Exchange(o.code, RequestImage(verb, path, pending, HostText(), contentType, body), o.appended)
    }

    constructor ()
      ensures Valid() && fresh(headers)
      ensures host == None && hostIp == IpAddress(0, 0, 0, 0) && port == DefaultPort
      ensures numHeaders == 0 && Pending() == []
      ensures contentType == DefaultContentType
      ensures maxResponseLength == UIntMax && responseTimeout == DefaultResponseTimeout
    {
      headers := new CString[MaxHeaders](_ => []);
      host := None;
      hostIp := IpAddress(0, 0, 0, 0);
      port := DefaultPort;
      numHeaders := 0;
      contentType := DefaultContentType;
      maxResponseLength := UIntMax;
      responseTimeout := DefaultResponseTimeout;
    }

    /** `setServer(host)`: the name, on the default port. A NULL name makes
        requests connect by address. */
    method SetServer(name: Option<CString>)
      requires Valid()
      modifies this`host, this`port
      ensures Valid() && host == name && port == DefaultPort
    {
      host := name;
      port := DefaultPort;
    }

    /** `setServer(host, port)`. */
    method SetServerPort(name: Option<CString>, p: int)
      requires Valid()
      modifies this`host, this`port
      ensures Valid() && host == name && port == p
    {
      host := name;
      port := p;
    }

    /** `setServer(ip, port)`: clears the name, so requests connect by address. */
    method SetServerAddress(ip: IpAddress, p: int)
      requires Valid()
      modifies this`host, this`hostIp, this`port
      ensures Valid() && host == None && hostIp == ip && port == p
      ensures Target() == ByAddress(ip, p)
    {
      host := None;
      hostIp := ip;
      port := p;
    }

    method SetMaxResponseLength(length: nat)
      requires Valid() && length <= UIntMax
      modifies this`maxResponseLength
      ensures Valid() && maxResponseLength == length
    {
      maxResponseLength := length;
    }

    method SetResponseTimeout(timeout: nat)
      requires Valid() && timeout <= UIntMax
      modifies this`responseTimeout
      ensures Valid() && responseTimeout == timeout
    {
      responseTimeout := timeout;
    }

    method SetContentType(value: CString)
      requires Valid()
      modifies this`contentType
      ensures Valid() && contentType == value
    {
      contentType := value;
    }

    /** `setHeader`: stores the line in the next free slot and counts it. The
        source checks no bound, so the caller must leave room. */
    method SetHeader(header: CString)
      requires Valid() && numHeaders < MaxHeaders
      modifies this`numHeaders, headers
      ensures Valid()
      ensures numHeaders == old(numHeaders) + 1 && headers[old(numHeaders)] == header
      ensures forall k :: 0 <= k < headers.Length && k != old(numHeaders) ==> headers[k] == old(headers[k])
      ensures Pending() == old(Pending()) + [header]
    {
      headers[numHeaders] := header;
      numHeaders := numHeaders + 1;
    }

    /** The reader's local variables hold the state `r`: its status part, its
        flags, and (when there is one) the caller's buffer. */
    ghost predicate Holds(r: ReaderState, inStatus: bool, i: nat, statusCode: array<char>, code: int,
                          currentLineIsBlank: bool, httpBody: bool, response: Str?)
      reads statusCode, response
    {
      StatusHolds(r.st, inStatus, i, statusCode, code) &&
      currentLineIsBlank == r.currentLineIsBlank && httpBody == r.httpBody &&
      (response != null ==> response.value == r.buffer)
    }

    /** One pass of the loop of `readResponse` on the byte `c` just read: it
        updates the status buffer and code, then either appends `c` to the
        caller's buffer (in the body) or tracks the blank line that ends the
        head. `stop` is the `break` of the source: the buffer is full, or the
        head has ended and there is no buffer. */
    method ReadByte(c: char, inStatus: bool, i: nat, statusCode: array<char>, code: int,
                    currentLineIsBlank: bool, httpBody: bool, response: Str?, ghost r: ReaderState)
      returns (inStatus': bool, i': nat, code': int, currentLineIsBlank': bool, httpBody': bool, stop: bool)
      requires !r.stopped
      requires Holds(r, inStatus, i, statusCode, code, currentLineIsBlank, httpBody, response)
      modifies statusCode, response
      ensures var r' := Step(r, c, response != null, maxResponseLength);
        Holds(r', inStatus', i', statusCode, code', currentLineIsBlank', httpBody', response) &&
        stop == r'.stopped
    {
      inStatus', i', code' := ReadStatusByte(c, inStatus, i, statusCode, code, r.st);
      currentLineIsBlank', httpBody', stop := currentLineIsBlank, httpBody, false;

      if httpBody' {
        if response != null && |response.value| < maxResponseLength {
          response.value := response.value + [c];
        } else {
          stop := true;
        }
      } else {
        if c == '\n' && currentLineIsBlank' {
          httpBody' := true;
          if response == null {
            stop := true;
          }
        }
        if !stop {
          if c == '\n' {
            currentLineIsBlank' := true;
          } else if c != '\r' {
            currentLineIsBlank' := false;
          }
        }
      }
    }

    /** `readResponse`: reads the reply byte by byte. It tracks whether the
        first space has passed (`inStatus`), collects up to three status
        characters in `statusCode` and takes their `atoi`, watches for the
        blank line that ends the head (`currentLineIsBlank`, `httpBody`), and
        then appends body bytes to the caller's buffer while it is shorter
        than `maxResponseLength`. `consumed` is how many bytes it read. */
    method ReadResponse(incoming: seq<char>, response: Str?) returns (code: int, consumed: nat)
      modifies response
      ensures var o := Expected(incoming, response != null,
                                if response != null then |old(response.value)| else 0,
                                maxResponseLength);
        code == o.code && consumed == o.consumed &&
        (response != null ==> response.value == old(response.value) + o.appended)
    {
      var currentLineIsBlank := true;
      var httpBody := false;
      var inStatus := false;
      var statusCode := new char[4];
      var i := 0;
      code := 0;
      ghost var hasBuffer := response != null;
      ghost var initial := if response != null then response.value else [];
      ghost var r := Start(initial);
      var pos := 0;
      while pos < |incoming|
        invariant 0 <= pos <= |incoming|
        invariant r == Scan(incoming[..pos], hasBuffer, initial, maxResponseLength)
        invariant !r.stopped && r.read == pos
        invariant Holds(r, inStatus, i, statusCode, code, currentLineIsBlank, httpBody, response)
      {
        var c := incoming[pos];
        assert incoming[..pos + 1] == incoming[..pos] + [c];
        ScanSnoc(incoming[..pos], c, hasBuffer, initial, maxResponseLength);
        var stop;
        inStatus, i, code, currentLineIsBlank, httpBody, stop :=
          ReadByte(c, inStatus, i, statusCode, code, currentLineIsBlank, httpBody, response, r);
        r := Step(r, c, hasBuffer, maxResponseLength);
        pos := pos + 1;
        if stop {
          break;
        }
      }
      consumed := pos;
      FinalState(incoming, pos, hasBuffer, initial, maxResponseLength);
    }

    /** The writing half of `request`, once connected: the request line, the
        pending header lines, `Host` and `Connection`, `Content-Length` and
        `Content-Type` when there is a body, the empty line, and the body with
        two more CRLFs. What it writes is the request's wire image. */
    method WriteRequest(verb: CString, path: CString, body: Option<CString>) returns (written: string)
      requires Valid()
      ensures written == RequestImage(verb, path, Pending(), HostText(), contentType, body)
    {
      written := [];
      written := written + verb;
      written := written + " ";
      written := written + path;
      written := written + " HTTP/1.1\r\n";
      ghost var line := written;
      assert line == verb + " " + path + " HTTP/1.1" + "\r\n";
      for k := 0 to numHeaders
        invariant written == line + CrlfLines(headers[..k])
      {
        assert headers[..k + 1][..k] == headers[..k];
        written := written + headers[k];
        written := written + "\r\n";
      }
      assert headers[..numHeaders] == Pending();
      ghost var lines := written;
      written := written + "Host: ";
      written := written + HostText();
      written := written + "\r\n";
      Concat3(lines, "Host: ", HostText(), "\r\n");
      written := written + "Connection: close\r\n";
      assert "Connection: close\r\n" == "Connection: close" + "\r\n";
      ghost var fixed := written;

      if body.Some? {
        var lengthLine := "Content-Length: " + NatToDecimal(|body.value|) + "\r\n";
        written := written + lengthLine;
        written := written + "Content-Type: ";
        written := written + contentType;
        written := written + "\r\n";
        Concat3(fixed + lengthLine, "Content-Type: ", contentType, "\r\n");
        Concat2(fixed, lengthLine, "Content-Type: " + contentType + "\r\n");
      } else {
        assert fixed + [] == fixed;
      }

      written := written + "\r\n";
      ghost var blank := written;

      if body.Some? {
        written := written + body.value;
        written := written + "\r\n";
        written := written + "\r\n";
        Concat3(blank, body.value, "\r\n", "\r\n");
      } else {
        assert blank + [] == blank;
      }
      RequestImageLayout(verb, path, Pending(), HostText(), contentType, body);
    }

    /** `request`: connects, writes the request, reads the reply and clears the
        pending headers. When `connect` does not return 1 nothing is written
        and nothing changes. */
    method Request(verb: CString, path: CString, body: Option<CString>, response: Str?,
                   connectStatus: int, incoming: seq<char>)
      returns (code: int, dialed: Endpoint, written: string)
      requires Valid()
      modifies this`numHeaders, response
      ensures Valid() && dialed == Target()
      ensures var x := ExpectedExchange(verb, path, old(Pending()), body, response != null,
                                        if response != null then |old(response.value)| else 0,
                                        connectStatus, incoming);
        code == x.code && written == x.written &&
        (response != null ==> response.value == old(response.value) + x.appended)
      ensures numHeaders == if ConnectByte(connectStatus) == 1 then 0 else old(numHeaders)
      ensures ConnectByte(connectStatus) != 1 ==>
        code == 0 && written == [] && numHeaders == old(numHeaders) &&
        (response != null ==> response.value == old(response.value))
    {
      dialed := Target();
      if ConnectByte(connectStatus) == 1 {
        written := WriteRequest(verb, path, body);
        var consumed;
        code, consumed := ReadResponse(incoming, response);
        numHeaders := 0;
      } else {
        code, written := 0, [];
      }
    }

    /** `get(path)` and `get(path, response)`. */
    method Get(path: CString, response: Str?, connectStatus: int, incoming: seq<char>)
      returns (code: int, dialed: Endpoint, written: string)
      requires Valid()
      modifies this`numHeaders, response
      ensures Valid() && dialed == Target()
      ensures var x := ExpectedExchange("GET", path, old(Pending()), None, response != null,
                                        if response != null then |old(response.value)| else 0,
                                        connectStatus, incoming);
        code == x.code && written == x.written &&
        (response != null ==> response.value == old(response.value) + x.appended)
      ensures numHeaders == if ConnectByte(connectStatus) == 1 then 0 else old(numHeaders)
    {
      code, dialed, written := Request("GET", path, None, response, connectStatus, incoming);
    }

    /** `post(path, body)` and `post(path, body, response)`; a NULL body sends
        a request without one. */
    method Post(path: CString, body: Option<CString>, response: Str?, connectStatus: int, incoming: seq<char>)
      returns (code: int, dialed: Endpoint, written: string)
      requires Valid()
      modifies this`numHeaders, response
      ensures Valid() && dialed == Target()
      ensures var x := ExpectedExchange("POST", path, old(Pending()), body, response != null,
                                        if response != null then |old(response.value)| else 0,
                                        connectStatus, incoming);
        code == x.code && written == x.written &&
        (response != null ==> response.value == old(response.value) + x.appended)
      ensures numHeaders == if ConnectByte(connectStatus) == 1 then 0 else old(numHeaders)
    {
      code, dialed, written := Request("POST", path, body, response, connectStatus, incoming);
    }

    /** `put(path, body)` and `put(path, body, response)`; a NULL body sends
        a request without one. */
    method Put(path: CString, body: Option<CString>, response: Str?, connectStatus: int, incoming: seq<char>)
      returns (code: int, dialed: Endpoint, written: string)
      requires Valid()
      modifies this`numHeaders, response
      ensures Valid() && dialed == Target()
      ensures var x := ExpectedExchange("PUT", path, old(Pending()), body, response != null,
                                        if response != null then |old(response.value)| else 0,
                                        connectStatus, incoming);
        code == x.code && written == x.written &&
        (response != null ==> response.value == old(response.value) + x.appended)
      ensures numHeaders == if ConnectByte(connectStatus) == 1 then 0 else old(numHeaders)
    {
      code, dialed, written := Request("PUT", path, body, response, connectStatus, incoming);
    }

    /** The four `del` overloads: with or without a body, with or without a
        response buffer. */
    method Del(path: CString, body: Option<CString>, response: Str?, connectStatus: int, incoming: seq<char>)
      returns (code: int, dialed: Endpoint, written: string)
      requires Valid()
      modifies this`numHeaders, response
      ensures Valid() && dialed == Target()
      ensures var x := ExpectedExchange("DELETE", path, old(Pending()), body, response != null,
                                        if response != null then |old(response.value)| else 0,
                                        connectStatus, incoming);
        code == x.code && written == x.written &&
        (response != null ==> response.value == old(response.value) + x.appended)
      ensures numHeaders == if ConnectByte(connectStatus) == 1 then 0 else old(numHeaders)
    {
      code, dialed, written := Request("DELETE", path, body, response, connectStatus, incoming);
    }
  }
}
