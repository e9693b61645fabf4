/** Line framing shared by the request the client writes and the response it
    reads: lines terminated by CRLF, and the end of the head (status or request
    line plus header fields) marked by the first empty line, as in sections 2.1
    and 4 of RFC 9112. A line counts as empty, for the client's reader, when it
    holds nothing but carriage returns. */
module Framing {
  import opened Text

  /** Each line followed by CRLF, in order. */
  function CrlfLines(lines: seq<string>): string
  {
    if lines == [] then []
    else CrlfLines(lines[..|lines| - 1]) + lines[|lines| - 1] + "\r\n"
  }

  lemma {:induction false} CrlfLinesAppend(a: seq<string>, b: seq<string>)
    ensures CrlfLines(a + b) == CrlfLines(a) + CrlfLines(b)
  {
    if b == [] {
      assert a + b == a;
    } else {
      var b' := b[..|b| - 1];
      var l := b[|b| - 1];
      assert (a + b)[..|a + b| - 1] == a + b';
      assert (a + b)[|a + b| - 1] == l;
      CrlfLinesAppend(a, b');
      calc {
        CrlfLines(a + b);
        CrlfLines(a + b') + l + "\r\n";
        CrlfLines(a) + CrlfLines(b') + l + "\r\n";
        CrlfLines(a) + (CrlfLines(b') + l + "\r\n");
      }
    }
  }

  lemma CrlfLinesSingle(l: string)
    ensures CrlfLines([l]) == l + "\r\n"
  {
    assert [l][..0] == [];
  }

  /** The index where the last (unfinished) line of `p` starts: just after its
      last line feed, or 0. */
  function LineStart(p: string): (r: nat)
    ensures r <= |p|
  {
    if p == [] then 0
    else if p[|p| - 1] == '\n' then |p|
    else LineStart(p[..|p| - 1])
  }

  lemma {:induction false} LineStartFacts(p: string)
    ensures LineStart(p) == 0 || p[LineStart(p) - 1] == '\n'
    ensures forall k :: LineStart(p) <= k < |p| ==> p[k] != '\n'
  {
    if p != [] && p[|p| - 1] != '\n' {
      LineStartFacts(p[..|p| - 1]);
    }
  }

  predicate AllCr(l: string) {
    forall k :: 0 <= k < |l| ==> l[k] == '\r'
  }

  /** The line `p` ends in holds only carriage returns (or nothing). */
  predicate LineBlank(p: string) {
    if p == [] then true
    else if p[|p| - 1] == '\n' then true
    else p[|p| - 1] == '\r' && LineBlank(p[..|p| - 1])
  }

  /** The current line is blank exactly when everything after the last line
      feed is a carriage return. */
  lemma {:induction false} LineBlankMeans(p: string)
    ensures LineBlank(p) == AllCr(p[LineStart(p)..])
  {
    if p != [] && p[|p| - 1] != '\n' {
      var q := p[..|p| - 1];
      LineBlankMeans(q);
      assert p[LineStart(p)..] == q[LineStart(q)..] + [p[|p| - 1]];
    }
  }

  /** The line feed at index `j` of `s` ends a blank line. */
  predicate BlankTerminator(s: string, j: nat) {
    j < |s| && s[j] == '\n' && LineBlank(s[..j])
  }

  /** The first line feed of `s` that ends a blank line: the end of the head. */
  function Boundary(s: string): (r: Option<nat>)
    ensures r.Some? ==> r.value < |s|
  {
    if s == [] then None
    else if Boundary(s[..|s| - 1]).Some? then Boundary(s[..|s| - 1])
    else if BlankTerminator(s, |s| - 1) then Some(|s| - 1)
    else None
  }

  /** `Boundary` finds the first line feed that ends a blank line, and none
      when there is none. */
  lemma {:induction false} BoundaryFirst(s: string)
    ensures Boundary(s).Some? ==> BlankTerminator(s, Boundary(s).value)
    ensures Boundary(s).Some? ==> forall k :: 0 <= k < Boundary(s).value ==> !BlankTerminator(s, k)
    ensures Boundary(s).None? ==> forall k :: 0 <= k < |s| ==> !BlankTerminator(s, k)
  {
    if s != [] {
      var p := s[..|s| - 1];
      BoundaryFirst(p);
      TerminatorPrefix(p, [s[|s| - 1]]);
      assert p + [s[|s| - 1]] == s;
    }
  }

  /** Conversely, the first line feed ending a blank line is what `Boundary`
      returns. */
  lemma BoundaryAt(s: string, b: nat)
    requires BlankTerminator(s, b)
    requires forall k :: 0 <= k < b ==> !BlankTerminator(s, k)
    ensures Boundary(s) == Some(b)
  {
    BoundaryFirst(s);
  }

  /** Whether index `j` ends a blank line depends only on the input up to `j`. */
  lemma TerminatorPrefix(s: string, t: string)
    ensures forall j :: 0 <= j < |s| ==> BlankTerminator(s + t, j) == BlankTerminator(s, j)
  {
    forall j | 0 <= j < |s|
      ensures BlankTerminator(s + t, j) == BlankTerminator(s, j)
    {
      assert (s + t)[..j] == s[..j];
    }
  }

  /** Once the end of the head has been read, reading more does not move it. */
  lemma BoundaryExtends(p: string, q: string)
    requires Boundary(p).Some?
    ensures Boundary(p + q) == Boundary(p)
  {
    BoundaryFirst(p);
    TerminatorPrefix(p, q);
    BoundaryAt(p + q, Boundary(p).value);
  }

  /** A line start is determined by a position after a line feed with no line
      feed beyond it. */
  lemma LineStartAt(p: string, r: nat)
    requires r <= |p| && (r == 0 || p[r - 1] == '\n')
    requires forall k :: r <= k < |p| ==> p[k] != '\n'
    ensures LineStart(p) == r
  {
    LineStartFacts(p);
  }

  /** How the blank-line flag moves when one more character is read: a line feed
      starts a fresh (blank) line, a carriage return leaves the flag alone and
      any other character makes the line non-blank. */
  lemma LineBlankSnoc(p: string, c: char)
    ensures LineBlank(p + [c]) == (c == '\n' || (c == '\r' && LineBlank(p)))
  {
    var q := p + [c];
    assert q[..|q| - 1] == p;
  }

  /** How the boundary moves when one more character is read. */
  lemma BoundarySnoc(p: string, c: char)
    ensures Boundary(p + [c]) ==
      if Boundary(p).Some? then Boundary(p)
      else if c == '\n' && LineBlank(p) then Some(|p|)
      else None
  {
    var s := p + [c];
    assert s[..|s| - 1] == p;
  }

  /** A line that a reader does not take for the empty line ending the head:
      no line feed inside, and some character other than a carriage return. */
  predicate HeadLine(l: string) {
    '\n' !in l && !AllCr(l)
  }

  /** No line feed inside CRLF-terminated head lines ends a blank line. */
  lemma {:induction false} NoTerminatorInLines(lines: seq<string>)
    requires forall k :: 0 <= k < |lines| ==> HeadLine(lines[k])
    ensures forall j :: 0 <= j < |CrlfLines(lines)| ==> !BlankTerminator(CrlfLines(lines), j)
  {
    if lines != [] {
      var init := lines[..|lines| - 1];
      var l := lines[|lines| - 1];
      var a := CrlfLines(init);
      var s := CrlfLines(lines);
      NoTerminatorInLines(init);
      assert s == a + (l + "\r\n");
      TerminatorPrefix(a, l + "\r\n");
      forall j | |a| <= j < |s|
        ensures !BlankTerminator(s, j)
      {
        if j < |s| - 1 {
          if j < |a| + |l| {
            assert s[j] == l[j - |a|];
          } else {
            assert s[j] == '\r';
          }
        } else {
          var p := s[..j];
          assert p == a + l + "\r";
          assert a == [] || a[|a| - 1] == '\n';
          assert forall k :: |a| <= k < |p| ==> p[k] != '\n' by {
            forall k | |a| <= k < |p| ensures p[k] != '\n' {
              if k < |a| + |l| { assert p[k] == l[k - |a|]; }
            }
          }
          LineStartAt(p, |a|);
          LineBlankMeans(p);
          assert p[|a|..] == l + "\r";
          var i :| 0 <= i < |l| && l[i] != '\r';
          assert p[|a|..][i] == l[i];
        }
      }
    }
  }

  /** A head of CRLF-terminated lines followed by an empty line: a reader that
      looks for the first blank line finds it exactly at the end of the head,
      whatever follows. */
  lemma HeadFraming(lines: seq<string>, rest: string)
    requires lines != []
    requires forall k :: 0 <= k < |lines| ==> HeadLine(lines[k])
    ensures Boundary(CrlfLines(lines) + "\r\n" + rest) == Some(|CrlfLines(lines)| + 1)
  {
    var a := CrlfLines(lines);
    var s := a + "\r\n" + rest;
    var h := |a| + 1;
    NoTerminatorInLines(lines);
    TerminatorPrefix(a, "\r\n" + rest);
    assert s == a + ("\r\n" + rest);
    assert !BlankTerminator(s, |a|) by { assert s[|a|] == '\r'; }
    assert a[|a| - 1] == '\n' by {
      assert a == CrlfLines(lines[..|lines| - 1]) + lines[|lines| - 1] + "\r\n";
    }
    var p := s[..h];
    assert p == a + "\r";
    LineStartAt(p, |a|);
    LineBlankMeans(p);
    assert p[|a|..] == "\r";
    assert BlankTerminator(s, h);
    BoundaryAt(s, h);
  }
}
