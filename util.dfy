/**
 * The CRLF line reader of server/util.go.
 *
 * The buffered connection is a `Reader`: the bytes the peer sends before the
 * stream stops (`data`), the error the stream reports once those bytes run
 * out (`end`: a clean close, an expired read deadline, or some other I/O
 * failure) and a cursor `pos`. `ReadLine` is the source's accumulate-until-
 * "\r\n" loop over `Reader.ReadString`; it is proved against `ReadLineSpec`,
 * which is defined directly from the first "\r\n" of the remaining bytes.
 */
module Util {
  import opened Wrappers

  /** The error a stream reports when it stops delivering bytes. */
  datatype StreamError = EOF | Timeout | IOErr

  const CRLF: string := "\r\n"

  /** strings.HasSuffix */
  predicate HasSuffix(s: string, suffix: string) {
    |suffix| <= |s| && s[|s| - |suffix|..] == suffix
  }

  /** No "\r\n" occurs anywhere in `s`. */
  predicate NoCrlf(s: string) {
    forall i :: 0 <= i < |s| - 1 ==> !(s[i] == '\r' && s[i + 1] == '\n')
  }

  /** The index of the first `c` in `s`, if there is one. */
  function IndexOf(s: string, c: char): (r: Option<nat>)
    ensures r.None? <==> c !in s
    ensures r.Some? ==> r.value < |s| && s[r.value] == c && c !in s[..r.value]
  {
    if |s| == 0 then None
    else if s[0] == c then Some(0)
    else match IndexOf(s[1..], c)
      case None => None
      case Some(k) =>
        assert s[..k + 1] == [s[0]] + s[1..][..k];
        Some(k + 1)
  }

  /** The index of the first "\r\n" in `s`, if there is one. */
  function FindCrlf(s: string): (r: Option<nat>)
    ensures r.None? ==> NoCrlf(s)
    ensures r.Some? ==> r.value + 2 <= |s| && s[r.value..r.value + 2] == CRLF
    ensures r.Some? ==> NoCrlf(s[..r.value + 1])
  {
    if |s| < 2 then None
    else if s[0] == '\r' && s[1] == '\n' then Some(0)
    else match FindCrlf(s[1..])
      case None => None
      case Some(k) =>
        assert s[..k + 2] == [s[0]] + s[1..][..k + 1];
        Some(k + 1)
  }

  /** The outcome of reading one line: the text returned, the error returned
      (None when a terminator was found) and how many bytes were consumed. */
  datatype LineRead = LineRead(line: string, err: Option<StreamError>, used: nat)

  /** What ReadLine returns on the remaining bytes `s` of a stream that ends with `end`. */
  function ReadLineSpec(s: string, end: StreamError): (r: LineRead)
    ensures r.used <= |s| && NoCrlf(r.line)
    ensures r.err.None? ==> s[..r.used] == r.line + CRLF
    ensures r.err.Some? ==> r.err == Some(end) && r.line == s && r.used == |s|
  {
    match FindCrlf(s)
    case Some(k) => LineRead(s[..k], None, k + 2)
    case None => LineRead(s, Some(end), |s|)
  }

  /** Skipping a prefix that holds no "\r\n" does not change where the first "\r\n" is. */
  lemma {:induction false} FindCrlfSkip(s: string, j: nat)
    requires j < |s| && NoCrlf(s[..j + 1])
    ensures FindCrlf(s) == match FindCrlf(s[j..]) case None => None case Some(k) => Some(j + k)
  {
    if j > 0 {
      assert s[0] == s[..j + 1][0] && s[1] == s[..j + 1][1];
      assert s[1..][..j] == s[..j + 1][1..];
      assert s[1..][j - 1..] == s[j..];
      FindCrlfSkip(s[1..], j - 1);
    }
  }

  /** A line free of "\r\n" followed by "\r\n" is read back exactly, whatever follows it. */
  lemma ReadLineSpecOfLine(line: string, rest: string, end: StreamError)
    requires NoCrlf(line)
    ensures ReadLineSpec(line + CRLF + rest, end) == LineRead(line, None, |line| + 2)
  {
    var s := line + CRLF + rest;
    var p := s[..|line| + 1];
    forall i | 0 <= i < |p| - 1
      ensures !(p[i] == '\r' && p[i + 1] == '\n')
    {
      if i + 1 < |line| {
        assert p[i] == line[i] && p[i + 1] == line[i + 1];
      } else {
        assert p[i + 1] == '\r';
      }
    }
    assert s[|line|..][0] == '\r' && s[|line|..][1] == '\n';
    FindCrlfSkip(s, |line|);
    assert s[..|line|] == line;
  }

  /** A bare "\n" does not end a line: the text up to and including it stays in the line. */
  lemma BareLfNotTerminator(a: string, b: string, end: StreamError)
    requires NoCrlf(a) && (a == [] || a[|a| - 1] != '\r')
    ensures var r := ReadLineSpec(a + "\n" + b, end);
      |a| < |r.line| && r.line[..|a| + 1] == a + "\n"
  {
    var s := a + "\n" + b;
    var p := s[..|a| + 1];
    forall i | 0 <= i < |p| - 1
      ensures !(p[i] == '\r' && p[i + 1] == '\n')
    {
      if i + 1 < |a| {
        assert p[i] == a[i] && p[i + 1] == a[i + 1];
      } else {
        assert p[i] == a[|a| - 1];
      }
    }
    FindCrlfSkip(s, |a|);
    assert s[|a|..] == "\n" + b;
    assert p == a + "\n";
  }

  /** Bytes left without a terminator when the stream stops come back whole, with the stream's error. */
  lemma UnterminatedTail(s: string, end: StreamError)
    requires NoCrlf(s)
    ensures ReadLineSpec(s, end) == LineRead(s, Some(end), |s|)
  {
    if s != [] {
      assert s[..|s|] == s;
      FindCrlfSkip(s, |s| - 1);
    }
  }

  /** Appending a ReadString chunk that ends in "\n" to text free of "\r\n":
      the result holds "\r\n" at most at its very end. */
  lemma AppendChunk(line: string, chunk: string)
    requires NoCrlf(line)
    requires chunk != [] && '\n' !in chunk[..|chunk| - 1]
    ensures NoCrlf((line + chunk)[..|line + chunk| - 1])
    ensures !HasSuffix(line + chunk, CRLF) ==> NoCrlf(line + chunk)
  {
    var t := line + chunk;
    forall i | 0 <= i < |t| - 1
      ensures i + 1 < |t| - 1 ==> !(t[i] == '\r' && t[i + 1] == '\n')
      ensures !HasSuffix(t, CRLF) ==> !(t[i] == '\r' && t[i + 1] == '\n')
    {
      if i + 1 < |line| {
        assert t[i] == line[i] && t[i + 1] == line[i + 1];
      } else if i + 1 < |t| - 1 {
        assert t[i + 1] == chunk[..|chunk| - 1][i + 1 - |line|];
      } else {
        assert t[|t| - 2..] == [t[i], t[i + 1]];
      }
    }
    var u := t[..|t| - 1];
    forall i | 0 <= i < |u| - 1
      ensures !(u[i] == '\r' && u[i + 1] == '\n')
    {
      assert u[i] == t[i] && u[i + 1] == t[i + 1];
    }
  }

  /** A prefix of text free of "\r\n" is free of it too. */
  lemma NoCrlfPrefix(s: string, n: nat)
    requires NoCrlf(s) && n <= |s|
    ensures NoCrlf(s[..n])
  {
    forall i | 0 <= i < n - 1
      ensures !(s[..n][i] == '\r' && s[..n][i + 1] == '\n')
    {
      assert s[..n][i] == s[i] && s[..n][i + 1] == s[i + 1];
    }
  }

  /** Appending a final chunk with no "\n" in it keeps the accumulated text free of "\r\n". */
  lemma AppendTail(line: string, chunk: string)
    requires NoCrlf(line) && '\n' !in chunk
    ensures NoCrlf(line + chunk)
  {
    var t := line + chunk;
    forall i | 0 <= i < |t| - 1
      ensures !(t[i] == '\r' && t[i + 1] == '\n')
    {
      if i + 1 < |line| {
        assert t[i] == line[i] && t[i + 1] == line[i + 1];
      } else {
        assert t[i + 1] == chunk[i + 1 - |line|];
      }
    }
  }

  /** A final ReadString chunk, with no "\n" in it, completes the remaining bytes `rest`:
      they come back whole, with the stream's error. */
  lemma UnterminatedLine(rest: string, acc: string, chunk: string, after: string, end: StreamError)
    requires rest == acc + (chunk + after) && after == [] && NoCrlf(acc) && '\n' !in chunk
    ensures rest == acc + chunk && NoCrlf(acc + chunk)
    ensures ReadLineSpec(rest, end) == LineRead(acc + chunk, Some(end), |rest|)
  {
    AppendTail(acc, chunk);
    assert rest == acc + chunk;
    UnterminatedTail(acc + chunk, end);
  }

  /** A "\n"-terminated ReadString chunk appended to text free of "\r\n": when the text
      now ends in "\r\n" it is one complete line of `rest`, otherwise it stays free of "\r\n". */
  lemma TerminatedChunk(rest: string, acc: string, chunk: string, after: string, end: StreamError)
    requires rest == acc + (chunk + after) && NoCrlf(acc)
    requires chunk != [] && '\n' !in chunk[..|chunk| - 1]
    ensures rest == (acc + chunk) + after
    ensures !HasSuffix(acc + chunk, CRLF) ==> NoCrlf(acc + chunk)
    ensures HasSuffix(acc + chunk, CRLF) ==>
      var t := acc + chunk;
      rest == t[..|t| - 2] + CRLF + after &&
      ReadLineSpec(rest, end) == LineRead(t[..|t| - 2], None, |t|)
  {
    var t := acc + chunk;
    assert rest == t + after;
    AppendChunk(acc, chunk);
    if HasSuffix(t, CRLF) {
      var body := t[..|t| - 2];
      NoCrlfPrefix(t[..|t| - 1], |t| - 2);
      assert t == body + CRLF;
      ReadLineSpecOfLine(body, after, end);
    }
  }

  /** A buffered stream: the bytes delivered before it stops, the error it then reports, and a read cursor. */
  class Reader {
    const data: string
    const end: StreamError
    var pos: nat

    ghost predicate Valid()
      reads this
    {
      pos <= |data|
    }

    /** The bytes not yet consumed. */
    function Rest(): string
      reads this
      requires Valid()
    {
      data[pos..]
    }

    constructor (data: string, end: StreamError)
      ensures Valid() && this.data == data && this.end == end && pos == 0
    {
      this.data := data;
      this.end := end;
      pos := 0;
    }

    /** bufio.Reader.ReadString: the bytes up to and including the first `delim`;
        without one, all remaining bytes and the stream's error. */
    method ReadString(delim: char) returns (s: string, err: Option<StreamError>)
      requires Valid()
      modifies this
      ensures Valid() && old(pos) <= pos
      ensures old(Rest()) == s + Rest()
      ensures err.None? <==> delim in old(Rest())
      ensures err.None? ==> s != [] && s[|s| - 1] == delim && delim !in s[..|s| - 1]
      ensures err.Some? ==> err == Some(end) && s == old(Rest()) && Rest() == []
    {
      match IndexOf(data[pos..], delim)
      case Some(k) =>
        s := data[pos..pos + k + 1];
        assert s[..|s| - 1] == data[pos..][..k];
        pos := pos + k + 1;
        err := None;
      case None =>
        s := data[pos..];
        pos := |data|;
        err := Some(end);
    }
  }

  /** ReadLine: pull "\n"-terminated chunks until the accumulated text ends in
      "\r\n" and return it without the terminator; on a stream error return
      the text accumulated so far with the error. */
  method ReadLine(br: Reader) returns (line: string, err: Option<StreamError>)
    requires br.Valid()
    modifies br
    ensures br.Valid() && old(br.pos) <= br.pos
    ensures LineRead(line, err, br.pos - old(br.pos)) == ReadLineSpec(old(br.Rest()), br.end)
    ensures err.None? ==> old(br.Rest()) == line + CRLF + br.Rest()
  {
    ghost var rest := br.Rest();
    line := "";
    while true
      invariant br.Valid() && old(br.pos) <= br.pos
      invariant rest == line + br.Rest()
      invariant NoCrlf(line)
      decreases |br.data| - br.pos
    {
      var s, e := br.ReadString('\n');
      if e.Some? {
        UnterminatedLine(rest, line, s, br.Rest(), br.end);
        line := line + s;
        err := e;
        return;
      }
      TerminatedChunk(rest, line, s, br.Rest(), br.end);
      line := line + s;
      if HasSuffix(line, CRLF) {
        line := line[..|line| - 2];
        err := None;
        return;
      }
    }
  }
}
