/** What `RestClient::readResponse` computes from the bytes it reads, stated as
    functions of the input independently of the byte-at-a-time loop that the
    class method runs. The status code is `atoi` of the first three characters
    other than a space that follow the first space of the input; the body is
    whatever follows the first line feed ending a blank line; a caller-owned
    buffer collects body bytes while it is shorter than the length cap. */
module Response {
  import opened Text
  import opened CAtoi
  import opened Framing

  /** The input after its first space (empty if it has none). */
  function AfterFirstSpace(p: string): (t: string)
    ensures |t| <= |p|
  {
    if p == [] then []
    else if p[0] == ' ' then p[1..]
    else AfterFirstSpace(p[1..])
  }

  /** The characters of `t` other than the space, in order. */
  function NonSpace(t: string): (u: string)
    ensures |u| <= |t|
  {
    if t == [] then []
    else if t[0] == ' ' then NonSpace(t[1..])
    else [t[0]] + NonSpace(t[1..])
  }

  /** The characters that the reader puts into its status buffer, if it had room
      for all of them. */
  function StatusChars(p: string): string {
    NonSpace(AfterFirstSpace(p))
  }

  /** The status code after reading `p`: `atoi` of the first three status
      characters, or 0 while fewer than three have arrived. */
  function StatusCode(p: string): int {
    var sc := StatusChars(p);
    if |sc| >= 3 then Atoi(sc[..3]) else 0
  }

  lemma {:induction false} AfterFirstSpaceNone(p: string)
    requires ' ' !in p
    ensures AfterFirstSpace(p) == []
  {
    if p != [] {
      AfterFirstSpaceNone(p[1..]);
    }
  }

  lemma {:induction false} AfterFirstSpaceSnoc(p: string, c: char)
    ensures AfterFirstSpace(p + [c]) == if ' ' in p then AfterFirstSpace(p) + [c] else if c == ' ' then [] else []
  {
    if p != [] {
      assert (p + [c])[1..] == p[1..] + [c];
      AfterFirstSpaceSnoc(p[1..], c);
      assert ' ' in p <==> p[0] == ' ' || ' ' in p[1..];
    }
  }

  lemma {:induction false} NonSpaceAppend(a: string, b: string)
    ensures NonSpace(a + b) == NonSpace(a) + NonSpace(b)
  {
    if a == [] {
      assert a + b == b;
    } else {
      assert (a + b)[1..] == a[1..] + b;
      NonSpaceAppend(a[1..], b);
    }
  }

  /** One more character read: it joins the status characters exactly when a
      space has already been seen and it is not a space itself. */
  lemma StatusCharsSnoc(p: string, c: char)
    ensures StatusChars(p + [c]) == StatusChars(p) + (if ' ' in p && c != ' ' then [c] else [])
  {
    AfterFirstSpaceSnoc(p, c);
    if ' ' !in p { AfterFirstSpaceNone(p); }
    NonSpaceAppend(AfterFirstSpace(p), [c]);
    assert NonSpace([c]) == if c == ' ' then [] else [c] by {
      assert [c][1..] == [];
    }
  }

  lemma {:induction false} AfterFirstSpaceAppend(p: string, q: string)
    ensures ' ' in p ==> AfterFirstSpace(p + q) == AfterFirstSpace(p) + q
  {
    if p != [] && ' ' in p {
      assert (p + q)[1..] == p[1..] + q;
      if p[0] != ' ' {
        AfterFirstSpaceAppend(p[1..], q);
      }
    }
  }

  /** Reading more input only adds status characters at the end. */
  lemma StatusCharsAppend(p: string, q: string)
    ensures StatusChars(p) <= StatusChars(p + q)
  {
    if ' ' in p {
      AfterFirstSpaceAppend(p, q);
      NonSpaceAppend(AfterFirstSpace(p), q);
    } else {
      AfterFirstSpaceNone(p);
    }
  }

  /** Once three status characters are in, the code never changes again. */
  lemma StatusCodeFrozen(p: string, q: string)
    requires |StatusChars(p)| >= 3
    ensures StatusCode(p + q) == StatusCode(p)
  {
    StatusCharsAppend(p, q);
    assert StatusChars(p + q)[..3] == StatusChars(p)[..3];
  }

  /** Three decimal digits give a code from 0 to 999, their decimal value; any
      three characters give a code from -99 to 999. */
  lemma StatusCodeRange(p: string)
    ensures -99 <= StatusCode(p) <= 999
    ensures |StatusChars(p)| >= 3 && AllDigits(StatusChars(p)[..3]) ==>
      0 <= StatusCode(p) <= 999 && StatusCode(p) == DecimalValue(StatusChars(p)[..3])
  {
    var sc := StatusChars(p);
    if |sc| >= 3 {
      AtoiThreeCharsRange(sc[..3]);
      if AllDigits(sc[..3]) {
        AtoiThreeDigits(sc[..3]);
        AtoiOfDigits(sc[..3]);
      }
    }
  }

  /** The result of reading one response. */
  datatype Outcome = Outcome(code: int, consumed: nat, appended: string)

  /** How many more characters a buffer of length `initialLen` accepts under the
      cap `maxLen`. */
  function Room(initialLen: nat, maxLen: nat): nat {
    if initialLen < maxLen then maxLen - initialLen else 0
  }

  /** What reading does with input `s`. With no blank line the whole input is
      read. At the blank line a reader with no buffer stops; one with a buffer
      goes on appending body bytes while the buffer is below the cap, and the
      first body byte that finds it full is read, dropped, and ends the read.
      The code is the status code of what was read. */
  function Expected(s: string, hasBuffer: bool, initialLen: nat, maxLen: nat): (o: Outcome)
    ensures o.consumed <= |s|
  {
    var n := ReadCount(s, hasBuffer, initialLen, maxLen);
    Outcome(StatusCode(s[..n]), n, BodyAppended(s, hasBuffer, initialLen, maxLen))
  }

  /** How many bytes reading takes from `s`. */
  function ReadCount(s: string, hasBuffer: bool, initialLen: nat, maxLen: nat): (n: nat)
    ensures n <= |s|
  {
    var bd := Boundary(s);
    if bd.None? then |s|
    else if !hasBuffer then bd.value + 1
    else if |s| - (bd.value + 1) <= Room(initialLen, maxLen) then |s|
    else bd.value + 2 + Room(initialLen, maxLen)
  }

  /** The body bytes reading adds to the buffer. */
  function BodyAppended(s: string, hasBuffer: bool, initialLen: nat, maxLen: nat): string {
    var bd := Boundary(s);
    if bd.None? || !hasBuffer then []
    else if |s| - (bd.value + 1) <= Room(initialLen, maxLen) then s[bd.value + 1..]
    else s[bd.value + 1..bd.value + 1 + Room(initialLen, maxLen)]
  }

  /** `Expected` case by case, in one statement (the four lemmas below give
      each case on its own, in the form the loop's proof uses them). The code
      is that of what was read; the buffer never grows past the
      larger of its initial length and the cap; without a blank line, or
      without a buffer, nothing is appended; with a buffer, exactly the body
      bytes that fit are appended, in input order, starting right after the
      line feed that ends the head. */
  lemma ExpectedShape(s: string, hasBuffer: bool, initialLen: nat, maxLen: nat)
    ensures var o := Expected(s, hasBuffer, initialLen, maxLen);
      o.code == StatusCode(s[..o.consumed]) &&
      initialLen + |o.appended| <= (if initialLen < maxLen then maxLen else initialLen) &&
      (Boundary(s).None? ==> o.consumed == |s| && o.appended == []) &&
      (Boundary(s).Some? && !hasBuffer ==> o.consumed == Boundary(s).value + 1 && o.appended == []) &&
      (Boundary(s).Some? && hasBuffer ==>
         var b, room := Boundary(s).value, Room(initialLen, maxLen);
         if |s| - (b + 1) <= room then o.consumed == |s| && o.appended == s[b + 1..]
         else o.consumed == b + 2 + room && o.appended == s[b + 1..b + 1 + room])
  {
  }

  /** No blank line: everything is read and nothing appended. */
  lemma ExpectedWithoutBoundary(s: string, hasBuffer: bool, initialLen: nat, maxLen: nat)
    requires Boundary(s).None?
    ensures Expected(s, hasBuffer, initialLen, maxLen) == Outcome(StatusCode(s), |s|, [])
  {
    assert s[..|s|] == s;
  }

  /** With no buffer, reading stops on the line feed that ends the head: no
      body byte is read. */
  lemma ExpectedStopsAtBoundary(s: string, n: nat, initialLen: nat, maxLen: nat)
    requires 0 < n <= |s| && Boundary(s[..n]) == Some(n - 1)
    ensures Boundary(s) == Some(n - 1)
    ensures Expected(s, false, initialLen, maxLen) == Outcome(StatusCode(s[..n]), n, [])
  {
    BoundaryExtends(s[..n], s[n..]);
    assert s[..n] + s[n..] == s;
  }

  /** With a buffer and a body that fits, all of the input is read and the whole
      body appended. */
  lemma ExpectedBodyFits(s: string, b: nat, initialLen: nat, maxLen: nat)
    requires Boundary(s) == Some(b) && |s| - (b + 1) <= Room(initialLen, maxLen)
    ensures Expected(s, true, initialLen, maxLen) == Outcome(StatusCode(s), |s|, s[b + 1..])
  {
    assert s[..|s|] == s;
  }

  /** With a buffer that fills up: the last byte of `s` found it full, so it
      was read and dropped, and reading ended there. */
  lemma ExpectedBufferFull(s: string, b: nat, initialLen: nat, maxLen: nat)
    requires Boundary(s) == Some(b) && |s| == b + 2 + Room(initialLen, maxLen)
    ensures Expected(s, true, initialLen, maxLen) == Outcome(StatusCode(s), |s|, s[b + 1..|s| - 1])
  {
    var room := Room(initialLen, maxLen);
    assert ReadCount(s, true, initialLen, maxLen) == |s|;
    assert BodyAppended(s, true, initialLen, maxLen) == s[b + 1..b + 1 + room];
    assert b + 1 + room == |s| - 1;
    assert s[..|s|] == s;
  }

  /** The status part of the reader's state: whether the space before the
      status code has been seen, the status characters collected so far (at
      most three are kept) and the code. */
  datatype StatusState = StatusState(inStatus: bool, status: string, code: int)

  /** The state of the reader between two bytes: its status part, the
      blank-line and in-body flags of the source, the contents of the caller's
      buffer, how many bytes were read, and whether the loop has ended. */
  datatype ReaderState = ReaderState(
    st: StatusState, currentLineIsBlank: bool, httpBody: bool,
    buffer: string, read: nat, stopped: bool)

  /** The state before the first byte, with the caller's buffer holding
      `initial` (empty when there is no buffer). */
  function Start(initial: string): ReaderState {
    ReaderState(StatusState(false, [], 0), true, false, initial, 0, false)
  }

  /** The status part of one pass: the buffer takes `c` once a space has been
      seen, while it has room and `c` is not a space; with three characters
      in, the code is `atoi` of the NUL-terminated buffer. */
  function StatusByte(st: StatusState, c: char): StatusState {
    var inStatus := st.inStatus || c == ' ';
    var status := if inStatus && |st.status| < 3 && c != ' ' then st.status + [c] else st.status;
    StatusState(inStatus, status, if |status| == 3 then Atoi(status + ['\0']) else st.code)
  }

  /** One pass of the loop body on byte `c`. In the body, `c` is appended while
      the buffer is shorter than the cap, else the loop ends. Before the body, a line feed ending a blank line
      starts the body, and ends the loop when there is no buffer. */
  function Step(r: ReaderState, c: char, hasBuffer: bool, maxLen: nat): (r': ReaderState)
    ensures r'.read == r.read + 1
  {
    var r1 := r.(st := StatusByte(r.st, c), read := r.read + 1);
    if r.httpBody then
      if hasBuffer && |r.buffer| < maxLen then r1.(buffer := r.buffer + [c])
      else r1.(stopped := true)
    else if c == '\n' && r.currentLineIsBlank && !hasBuffer then
      r1.(httpBody := true, stopped := true)
    else
      r1.(httpBody := c == '\n' && r.currentLineIsBlank,
          currentLineIsBlank := if c == '\n' then true else if c != '\r' then false else r.currentLineIsBlank)
  }

  /** The reader's state after offering it the bytes of `p` one by one; once
      the loop has ended, further bytes are not read. */
  function Scan(p: string, hasBuffer: bool, initial: string, maxLen: nat): (r: ReaderState)
    ensures |r.st.status| <= 3
  {
    if p == [] then Start(initial)
    else
      var r0 := Scan(p[..|p| - 1], hasBuffer, initial, maxLen);
      if r0.stopped then r0 else Step(r0, p[|p| - 1], hasBuffer, maxLen)
  }

  lemma ScanSnoc(p: string, c: char, hasBuffer: bool, initial: string, maxLen: nat)
    ensures var r0 := Scan(p, hasBuffer, initial, maxLen);
      Scan(p + [c], hasBuffer, initial, maxLen) ==
        if r0.stopped then r0 else Step(r0, c, hasBuffer, maxLen)
  {
    assert (p + [c])[..|p|] == p;
  }

  /** Once the loop has ended, the input left over does not matter. */
  lemma {:induction false} ScanFrozen(p: string, q: string, hasBuffer: bool, initial: string, maxLen: nat)
    requires Scan(p, hasBuffer, initial, maxLen).stopped
    ensures Scan(p + q, hasBuffer, initial, maxLen) == Scan(p, hasBuffer, initial, maxLen)
  {
    if q != [] {
      var q' := q[..|q| - 1];
      ScanFrozen(p, q', hasBuffer, initial, maxLen);
      assert p + q == (p + q') + [q[|q| - 1]];
      ScanSnoc(p + q', q[|q| - 1], hasBuffer, initial, maxLen);
    } else {
      assert p + q == p;
    }
  }

  /** The first three status characters (fewer while they have not all
      arrived). */
  function Take3(sc: string): string {
    if |sc| < 3 then sc else sc[..3]
  }

  /** The reader has ended on its own before the input ran out: at the head's
      end with no buffer, or on a body byte that found the buffer full. */
  predicate Halts(p: string, hasBuffer: bool, initialLen: nat, maxLen: nat) {
    Boundary(p).Some? &&
    (!hasBuffer || |p| - (Boundary(p).value + 1) > Room(initialLen, maxLen))
  }

  lemma ExpectedHalted(p: string, q: string, hasBuffer: bool, initialLen: nat, maxLen: nat)
    requires Halts(p, hasBuffer, initialLen, maxLen)
    ensures Halts(p + q, hasBuffer, initialLen, maxLen)
    ensures Expected(p + q, hasBuffer, initialLen, maxLen) == Expected(p, hasBuffer, initialLen, maxLen)
  {
    BoundaryExtends(p, q);
    var b := Boundary(p).value;
    var room := Room(initialLen, maxLen);
    var n := if hasBuffer then b + 2 + room else b + 1;
    SliceOfAppend(p, q, 0, n);
    if hasBuffer {
      SliceOfAppend(p, q, b + 1, b + 1 + room);
    }
  }

  lemma SliceOfAppend(p: string, q: string, i: nat, j: nat)
    requires i <= j <= |p|
    ensures (p + q)[i..j] == p[i..j] && (p + q)[..j] == p[..j]
  {
  }

  /** The status part of the reader's state as a function of what was read:
      the flag says whether a space was seen, the buffer holds the first three
      status characters and the code is the status code. */
  predicate StatusOf(st: StatusState, p: string) {
    st.inStatus == (' ' in p) && st.status == Take3(StatusChars(p)) && st.code == StatusCode(p)
  }

  /** The status part of one pass keeps `StatusOf`. */
  lemma StatusStep(p: string, c: char, st: StatusState)
    requires StatusOf(st, p)
    ensures StatusOf(StatusByte(st, c), p + [c])
  {
    var st' := StatusByte(st, c);
    StatusCharsSnoc(p, c);
    assert (' ' in p + [c]) == (' ' in p || c == ' ');
    var sc, sc' := StatusChars(p), StatusChars(p + [c]);
    if |sc| >= 3 {
      assert sc'[..3] == sc[..3];
    }
    if |st'.status| == 3 {
      AtoiNulTerminated(st'.status);
      assert st'.status == sc'[..3];
    }
  }

  /** The reader has ended and its result is what `Expected` says. */
  predicate Finished(r: ReaderState, p: string, hasBuffer: bool, initial: string, maxLen: nat) {
    var o := Expected(p, hasBuffer, |initial|, maxLen);
    Halts(p, hasBuffer, |initial|, maxLen) &&
    r.st.code == o.code && r.read == o.consumed && r.buffer == initial + o.appended
  }

  /** The reader is still running, and its variables are the declarative
      quantities of what it has read: the read count, the first space, the
      status characters and code, the head's end, the blank-line flag, and the
      body bytes held in the buffer. */
  predicate Running(r: ReaderState, p: string, hasBuffer: bool, initial: string, maxLen: nat) {
    !Halts(p, hasBuffer, |initial|, maxLen) &&
    r.read == |p| && StatusOf(r.st, p) && r.httpBody == Boundary(p).Some? &&
    (!r.httpBody ==> r.currentLineIsBlank == LineBlank(p) && r.buffer == initial) &&
    (r.httpBody ==> hasBuffer && r.buffer == initial + p[Boundary(p).value + 1..])
  }

  /** The loop pass by pass: while it runs, its variables are the declarative
      quantities of the prefix read so far; once it has ended, its result is
      `Expected` of that prefix. */
  lemma {:induction false} ScanInvariant(p: string, hasBuffer: bool, initial: string, maxLen: nat)
    ensures var r := Scan(p, hasBuffer, initial, maxLen);
      if r.stopped then Finished(r, p, hasBuffer, initial, maxLen)
      else Running(r, p, hasBuffer, initial, maxLen)
  {
    if p == [] {
      assert StatusChars(p) == [];
      assert StatusOf(Start(initial).st, p);
    } else {
      var init, c := p[..|p| - 1], p[|p| - 1];
      assert p == init + [c];
      ScanInvariant(init, hasBuffer, initial, maxLen);
      ScanSnoc(init, c, hasBuffer, initial, maxLen);
      var r0 := Scan(init, hasBuffer, initial, maxLen);
      if r0.stopped {
        ExpectedHalted(init, [c], hasBuffer, |initial|, maxLen);
      } else {
        StepInvariant(init, c, r0, hasBuffer, initial, maxLen);
      }
    }
  }

  /** One pass of the loop keeps the invariant of `ScanInvariant`. */
  lemma StepInvariant(init: string, c: char, r0: ReaderState, hasBuffer: bool, initial: string, maxLen: nat)
    requires !r0.stopped && Running(r0, init, hasBuffer, initial, maxLen)
    ensures var p, r := init + [c], Step(r0, c, hasBuffer, maxLen);
      if r.stopped then Finished(r, p, hasBuffer, initial, maxLen)
      else Running(r, p, hasBuffer, initial, maxLen)
  {
    var p, r := init + [c], Step(r0, c, hasBuffer, maxLen);
    var room := Room(|initial|, maxLen);
    StatusStep(init, c, r0.st);
    BoundarySnoc(init, c);
    LineBlankSnoc(init, c);
    assert p[..|p|] == p;
    if r0.httpBody {
      var b := Boundary(init).value;
      BoundaryExtends(init, [c]);
      if hasBuffer && |r0.buffer| < maxLen {
        assert p[b + 1..] == init[b + 1..] + [c];
        assert r.buffer == initial + p[b + 1..];
      } else {
        assert |init| - (b + 1) == room;
        ExpectedBufferFull(p, b, |initial|, maxLen);
        assert p[b + 1..|p| - 1] == init[b + 1..];
      }
    } else if c == '\n' && r0.currentLineIsBlank {
      if !hasBuffer {
        ExpectedStopsAtBoundary(p, |p|, |initial|, maxLen);
        assert initial + [] == initial;
      } else {
        assert p[|init| + 1..] == [];
        assert initial + [] == initial;
      }
    }
  }

  /** The byte-at-a-time reader computes exactly `Expected`: the same code,
      the same number of bytes read, and the buffer extended by the same
      bytes. */
  lemma ScanMeetsSpec(s: string, hasBuffer: bool, initial: string, maxLen: nat)
    ensures var r, o := Scan(s, hasBuffer, initial, maxLen), Expected(s, hasBuffer, |initial|, maxLen);
      r.st.code == o.code && r.read == o.consumed && r.buffer == initial + o.appended
  {
    ScanInvariant(s, hasBuffer, initial, maxLen);
    var r := Scan(s, hasBuffer, initial, maxLen);
    if !r.stopped {
      if r.httpBody {
        ExpectedBodyFits(s, Boundary(s).value, |initial|, maxLen);
      } else {
        ExpectedWithoutBoundary(s, hasBuffer, |initial|, maxLen);
        assert initial + [] == initial;
      }
    }
  }

  /** The response of the worked example: a status line, one header field, the
      blank line and a five-byte body. */
  const Sample: string := SampleHeadText + "Hello"
  const SampleHeadText: string := "HTTP/1.1 200 OK\r\nHeader: x\r\n\r\n"

  lemma {:induction false} AfterFirstSpaceSplit(a: string, b: string)
    requires ' ' !in a
    ensures AfterFirstSpace(a + " " + b) == b
  {
    if a != [] {
      assert (a + " " + b)[1..] == a[1..] + " " + b;
      AfterFirstSpaceSplit(a[1..], b);
    }
  }

  lemma SampleHead()
    ensures Sample == CrlfLines(["HTTP/1.1 200 OK", "Header: x"]) + "\r\n" + "Hello"
  {
    var lines := ["HTTP/1.1 200 OK", "Header: x"];
    assert lines[..1] == ["HTTP/1.1 200 OK"];
    CrlfLinesSingle("HTTP/1.1 200 OK");
  }

  lemma SampleBoundary()
    ensures Boundary(Sample) == Some(29)
  {
    var lines := ["HTTP/1.1 200 OK", "Header: x"];
    SampleHead();
    assert HeadLine(lines[0]) by { assert lines[0][0] != '\r'; }
    assert HeadLine(lines[1]) by { assert lines[1][0] != '\r'; }
    HeadFraming(lines, "Hello");
  }

  lemma SampleStatusChars()
    ensures StatusChars(Sample[..12]) == "200"
  {
    assert Sample[..12] == "HTTP/1.1" + " " + "200";
    AfterFirstSpaceSplit("HTTP/1.1", "200");
    assert NonSpace("200") == "200" by {
      assert "200"[1..] == "00" && "00"[1..] == "0" && "0"[1..] == [];
    }
  }

  lemma SampleStatusCode()
    ensures StatusCode(Sample[..12]) == 200
  {
    SampleStatusChars();
    StatusCode200(Sample[..12]);
  }

  lemma StatusCode200(p: string)
    requires StatusChars(p) == "200"
    ensures StatusCode(p) == 200
  {
    AtoiOf200();
    assert "200"[..3] == "200";
  }

  lemma AtoiOf200()
    ensures Atoi("200") == 200
  {
    assert AllDigits("200") by {
      assert IsDigit("200"[0]) && IsDigit("200"[1]) && IsDigit("200"[2]);
    }
    AtoiThreeDigits("200");
    assert DigitValue('2') == 2 && DigitValue('0') == 0;
  }

  lemma PrefixSplit(s: string, k: nat, n: nat)
    requires k <= n <= |s|
    ensures s[..n] == s[..k] + s[k..n]
  {
  }

  lemma SampleCode(n: nat)
    requires 12 <= n <= |Sample|
    ensures StatusCode(Sample[..n]) == 200
  {
    SampleStatusChars();
    SampleStatusCode();
    PrefixSplit(Sample, 12, n);
    StatusCodeFrozen(Sample[..12], Sample[12..n]);
  }

  /** With a buffer and the default cap the sample gives 200 and "Hello"; with
      no buffer reading stops at the line feed of the blank line, before the
      body. */
  lemma SampleWithAndWithoutBuffer()
    ensures Expected(Sample, true, 0, UIntMax) == Outcome(200, |Sample|, "Hello")
    ensures Expected(Sample, false, 0, UIntMax) == Outcome(200, 30, [])
    ensures Sample[29] == '\n' && Sample[30..] == "Hello"
  {
    SampleBoundary();
    SampleCode(|Sample|);
    SampleCode(30);
    assert Sample[..|Sample|] == Sample;
    ExpectedShape(Sample, true, 0, UIntMax);
    ExpectedShape(Sample, false, 0, UIntMax);
  }

  /** With a cap of 3 the body is cut to "Hel"; the second 'l' is read and
      dropped, and reading ends before the 'o'. */
  lemma SampleTruncated()
    ensures Expected(Sample, true, 0, 3) == Outcome(200, |Sample| - 1, "Hel")
  {
    SampleBoundary();
    SampleCode(|Sample| - 1);
    SampleBody();
    ExpectedShape(Sample, true, 0, 3);
  }

  lemma SampleBody()
    ensures Sample[30..33] == "Hel"
  {
    var body := Sample[30..];
    assert body == "Hello";
    assert Sample[30..33] == body[..3];
  }
}
