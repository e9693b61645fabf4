/** The bytes `RestClient::request` writes once the connection is up, as a
    function of the request and of the client's state: the request line of
    section 3 of RFC 9112, the caller's header lines in the order they were
    added, `Host` (section 7.2 of RFC 9110), `Connection: close` (section 9.6
    of RFC 9112), `Content-Length` and `Content-Type` when there is a body
    (section 8.6 of RFC 9110), the empty line, and the body followed by two
    extra CRLFs. */
module Request {
  import opened Text
  import opened Framing

  function RequestLine(verb: string, path: string): string {
    verb + " " + path + " HTTP/1.1"
  }

  /** The head of the request, one entry per line, without line ends. */
  function HeadLines(verb: string, path: string, headers: seq<string>, host: string,
                     contentType: string, body: Option<CString>): seq<string>
  {
    [RequestLine(verb, path)] + headers + ["Host: " + host, "Connection: close"] +
    (if body.Some? then ["Content-Length: " + NatToDecimal(|body.value|), "Content-Type: " + contentType]
     else [])
  }

  /** What follows the empty line: the body and two CRLFs, or nothing. */
  function BodyPart(body: Option<CString>): (part: string)
    ensures body.Some? ==> |part| >= 4 && part[|part| - 4..] == "\r\n\r\n"
  {
    if body.Some? then body.value + "\r\n" + "\r\n" else []
  }

  /** The wire image of a request: its head lines, each ended by CRLF, the empty
      line, then the body part. Either way it ends in CRLF CRLF: the end of the
      last head line and the empty line, or the two CRLFs after the body. */
  function RequestImage(verb: string, path: string, headers: seq<string>, host: string,
                        contentType: string, body: Option<CString>): (image: string)
    ensures |image| >= 4 && image[|image| - 4..] == "\r\n\r\n"
  {
    var head := CrlfLines(HeadLines(verb, path, headers, host, contentType, body));
    CrlfLinesEnd(HeadLines(verb, path, headers, host, contentType, body));
    EndsInTwoCrlf(head, BodyPart(body), body.None?);
    head + "\r\n" + BodyPart(body)
  }

  /** CRLF-terminated lines, at least one, end in CRLF. */
  lemma CrlfLinesEnd(lines: seq<string>)
    requires lines != []
    ensures var c := CrlfLines(lines); |c| >= 2 && c[|c| - 2..] == "\r\n"
  {
    var c := CrlfLines(lines);
    var front := CrlfLines(lines[..|lines| - 1]) + lines[|lines| - 1];
    assert c == front + "\r\n";
    assert c[|c| - 2..] == "\r\n";
  }

  lemma EndsInTwoCrlf(head: string, tail: string, noBody: bool)
    requires |head| >= 2 && head[|head| - 2..] == "\r\n"
    requires noBody ==> tail == []
    requires !noBody ==> |tail| >= 4 && tail[|tail| - 4..] == "\r\n\r\n"
    ensures var image := head + "\r\n" + tail; |image| >= 4 && image[|image| - 4..] == "\r\n\r\n"
  {
    var image := head + "\r\n" + tail;
    if noBody {
      assert image[|image| - 4..] == head[|head| - 2..] + "\r\n";
    } else {
      assert image[|image| - 4..] == tail[|tail| - 4..];
    }
  }

  /** The order in which the client writes: the request line, then each header
      line with its CRLF, then Host and Connection, then Content-Length and
      Content-Type when there is a body, then the empty line and the body part.
      Without a body the request ends at the empty line. */
  lemma RequestImageLayout(verb: string, path: string, headers: seq<string>, host: string,
                           contentType: string, body: Option<CString>)
    ensures RequestImage(verb, path, headers, host, contentType, body) ==
      (verb + " " + path + " HTTP/1.1" + "\r\n") +
      CrlfLines(headers) +
      ("Host: " + host + "\r\n") +
      ("Connection: close" + "\r\n") +
      (if body.Some? then
         ("Content-Length: " + NatToDecimal(|body.value|) + "\r\n") +
         ("Content-Type: " + contentType + "\r\n")
       else []) +
      "\r\n" +
      (if body.Some? then body.value + "\r\n" + "\r\n" else [])
  {
    var rl := [RequestLine(verb, path)];
    var fixed := ["Host: " + host, "Connection: close"];
    var extra: seq<string> :=
      if body.Some? then ["Content-Length: " + NatToDecimal(|body.value|), "Content-Type: " + contentType]
      else [];
    assert HeadLines(verb, path, headers, host, contentType, body) == rl + headers + fixed + extra;
    CrlfLinesAppend(rl + headers + fixed, extra);
    CrlfLinesAppend(rl + headers, fixed);
    CrlfLinesAppend(rl, headers);
    var a, hs, f, e := CrlfLines(rl), CrlfLines(headers), CrlfLines(fixed), CrlfLines(extra);
    CrlfLinesSingle(RequestLine(verb, path));
    CrlfPair("Host: " + host, "Connection: close");
    var l1, l2 := "Host: " + host + "\r\n", "Connection: close" + "\r\n";
    var x := a + hs;
    assert x + f == x + l1 + l2;
    if body.Some? {
      CrlfPair("Content-Length: " + NatToDecimal(|body.value|), "Content-Type: " + contentType);
    } else {
      assert e == [];
    }
  }

  lemma Concat2(w: string, a: string, b: string)
    ensures w + a + b == w + (a + b)
  {
  }

  lemma Concat3(w: string, a: string, b: string, c: string)
    ensures w + a + b + c == w + (a + b + c)
  {
  }

  lemma CrlfPair(a: string, b: string)
    ensures CrlfLines([a, b]) == (a + "\r\n") + (b + "\r\n")
  {
    assert [a, b][..1] == [a];
    CrlfLinesSingle(a);
  }

  /** The caller-supplied parts of a request that a reader of the head could
      otherwise mistake for a line end or an empty line. */
  predicate WellFormedParts(verb: string, path: string, headers: seq<string>, host: string,
                            contentType: string)
  {
    '\n' !in verb && '\n' !in path && '\n' !in host && '\n' !in contentType &&
    forall k :: 0 <= k < |headers| ==> HeadLine(headers[k])
  }

  lemma PrefixedHeadLine(prefix: string, rest: string)
    requires prefix != [] && prefix[0] != '\r' && '\n' !in prefix && '\n' !in rest
    ensures HeadLine(prefix + rest)
  {
    assert (prefix + rest)[0] == prefix[0];
    forall k | 0 <= k < |prefix + rest| ensures (prefix + rest)[k] != '\n' {
      if k < |prefix| { assert (prefix + rest)[k] == prefix[k]; }
      else { assert (prefix + rest)[k] == rest[k - |prefix|]; }
    }
  }

  lemma HeadLinesWellFormed(verb: string, path: string, headers: seq<string>, host: string,
                            contentType: string, body: Option<CString>)
    requires WellFormedParts(verb, path, headers, host, contentType)
    ensures var ls := HeadLines(verb, path, headers, host, contentType, body);
      ls != [] && forall k :: 0 <= k < |ls| ==> HeadLine(ls[k])
  {
    var ls := HeadLines(verb, path, headers, host, contentType, body);
    var rl := RequestLine(verb, path);
    assert rl == verb + (" " + path + " HTTP/1.1");
    assert HeadLine(rl) by {
      var tail := " " + path + " HTTP/1.1";
      assert '\n' !in tail by {
        forall k | 0 <= k < |tail| ensures tail[k] != '\n' {
          if 1 <= k < 1 + |path| { assert tail[k] == path[k - 1]; }
        }
      }
      forall k | 0 <= k < |rl| ensures rl[k] != '\n' {
        if k < |verb| { assert rl[k] == verb[k]; } else { assert rl[k] == tail[k - |verb|]; }
      }
      assert rl[|verb|] == ' ';
    }
    PrefixedHeadLine("Host: ", host);
    PrefixedHeadLine("Connection: close", "");
    assert "Connection: close" + "" == "Connection: close";
    if body.Some? {
      var cl := NatToDecimal(|body.value|);
      assert '\n' !in cl by {
        forall k | 0 <= k < |cl| ensures cl[k] != '\n' { assert IsDigit(cl[k]); }
      }
      PrefixedHeadLine("Content-Length: ", cl);
      PrefixedHeadLine("Content-Type: ", contentType);
    }
    forall k | 0 <= k < |ls| ensures HeadLine(ls[k]) {
      if 1 <= k < 1 + |headers| { assert ls[k] == headers[k - 1]; }
    }
  }

  /** A server that frames the request by its first empty line, as the client's
      own reader does, finds the end of the head exactly where the client put
      it, and what follows is the body part. When there is a body, the
      Content-Length value reads back as the body's length, the body comes first
      after the head, and the two extra CRLFs arrive as four bytes beyond the
      declared length. */
  lemma RequestFraming(verb: string, path: string, headers: seq<string>, host: string,
                       contentType: string, body: Option<CString>)
    requires WellFormedParts(verb, path, headers, host, contentType)
    ensures var image := RequestImage(verb, path, headers, host, contentType, body);
      var h := |CrlfLines(HeadLines(verb, path, headers, host, contentType, body))| + 2;
      Boundary(image) == Some(h - 1) && image[h..] == BodyPart(body) &&
      (body.None? ==> h == |image|) &&
      (body.Some? ==>
         var n := DecimalValue(NatToDecimal(|body.value|));
         h + n + 4 == |image| && image[h..h + n] == body.value && image[h + n..] == "\r\n\r\n")
  {
    var ls := HeadLines(verb, path, headers, host, contentType, body);
    HeadLinesWellFormed(verb, path, headers, host, contentType, body);
    HeadFraming(ls, BodyPart(body));
    var image := RequestImage(verb, path, headers, host, contentType, body);
    var h := |CrlfLines(ls)| + 2;
    assert image == CrlfLines(ls) + "\r\n" + BodyPart(body);
    assert image[h..] == BodyPart(body);
    if body.Some? {
      DecimalRoundTrip(|body.value|);
    }
  }
}
