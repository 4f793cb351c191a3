/** The HTTP CONNECT handshake: reading a response off a socket that may split it anywhere. */
module Connect {
  import opened Bytes
  import opened Wrappers

  const RESPONSE_MAX: nat := 8192
  const SPACE: byte := 32
  const CRLF: bytes := [13, 10]
  const END: bytes := [13, 10, 13, 10]

  /**
   * How the socket behaves during one response: with so many bytes already read, the next call
   * fails (None) or is willing to give so many. It never gives nothing while bytes are waiting.
   */
  type Socket = nat -> Option<nat>

  ghost predicate Healthy(sock: Socket) {
    forall filled :: sock(filled).Some?
  }

  /** Bytes delivered by one call; zero only at the end of the stream. */
  function Delivered(stream: bytes, filled: nat, willing: nat): (n: nat)
    requires filled < RESPONSE_MAX && filled <= |stream|
    ensures filled + n <= |stream| && filled + n <= RESPONSE_MAX
    ensures n == 0 <==> filled == |stream|
  {
    var room := Min(RESPONSE_MAX, |stream|) - filled;
    if room == 0 then 0 else if willing == 0 then 1 else Min(willing, room)
  }

  /** `mem.indexOf`: the first place where `pat` stands. */
  method IndexOf(s: bytes, pat: bytes) returns (r: Option<nat>)
    ensures r == Find(s, pat, 0)
  {
    var i: nat := 0;
    while i + |pat| <= |s|
      invariant Find(s, pat, 0) == Find(s, pat, i)
    {
      if s[i..i + |pat|] == pat {
        return Some(i);
      }
      i := i + 1;
    }
    return None;
  }

  function Find(s: bytes, pat: bytes, from: nat): (r: Option<nat>)
    ensures r.Some? ==> from <= r.value && r.value + |pat| <= |s|
    decreases if from <= |s| then |s| - from else 0
  {
    if from + |pat| > |s| then None
    else if s[from..from + |pat|] == pat then Some(from)
    else if from == |s| then None
    else Find(s, pat, from + 1)
  }

  lemma {:induction false} FindIsFirst(s: bytes, pat: bytes, from: nat)
    ensures var r := Find(s, pat, from);
            && (r.Some? ==> from <= r.value && Has(s, r.value, pat))
            && (forall i: nat :: from <= i && Has(s, i, pat) ==> r.Some? && r.value <= i)
    decreases if from <= |s| then |s| - from else 0
  {
    if from + |pat| <= |s| && s[from..from + |pat|] != pat && from < |s| {
      FindIsFirst(s, pat, from + 1);
    }
  }

  ghost predicate Contains(s: bytes, pat: bytes) {
    exists i: nat :: Has(s, i, pat)
  }

  lemma FoundIffContained(s: bytes, pat: bytes)
    ensures Find(s, pat, 0).Some? <==> Contains(s, pat)
  {
    FindIsFirst(s, pat, 0);
  }

  /** What is found in the beginning of a text is what is found in the whole of it. */
  lemma FindInPrefix(s: bytes, n: nat, pat: bytes)
    requires n <= |s| && Find(s[..n], pat, 0).Some?
    ensures Find(s, pat, 0) == Find(s[..n], pat, 0)
  {
    hide Find, Has;
    FindIsFirst(s[..n], pat, 0);
    FindIsFirst(s, pat, 0);
    var i := Find(s[..n], pat, 0).value;
    HasInPrefix(s, n, i, pat);
    HasInPrefix(s, n, Find(s, pat, 0).value, pat);
  }

  lemma HasInPrefix(s: bytes, n: nat, i: nat, pat: bytes)
    requires n <= |s|
    ensures Has(s[..n], i, pat) <==> Has(s, i, pat) && i + |pat| <= n
  {
    if i + |pat| <= n {
      assert s[..n][i..i + |pat|] == s[i..i + |pat|];
    }
  }

  // Reading one response.

  /** How many bytes have been read when the loop succeeds, if it does. */
  function ReadFrom(stream: bytes, sock: Socket, filled: nat): (r: Option<nat>)
    requires filled <= |stream|
    ensures r.Some? ==> r.value <= |stream|
    decreases |stream| - filled
  {
    if filled >= RESPONSE_MAX then None
    else match sock(filled)
         case None => None
         case Some(willing) =>
           var n := Delivered(stream, filled, willing);
           if n == 0 then None
           else if Find(stream[..filled + n], END, 0).Some? then Some(filled + n)
           else ReadFrom(stream, sock, filled + n)
  }

  method ReadResponse(stream: bytes, sock: Socket) returns (r: Option<bytes>)
    ensures r == match ReadFrom(stream, sock, 0) case None => None case Some(n) => Some(stream[..n])
  {
    var filled: nat := 0;
    while filled < RESPONSE_MAX
      invariant filled <= |stream| && ReadFrom(stream, sock, 0) == ReadFrom(stream, sock, filled)
      decreases |stream| - filled
    {
      var willing := sock(filled);
      if willing.None? {
        return None;
      }
      var n := Delivered(stream, filled, willing.value);
      if n == 0 {
        return None;
      }
      filled := filled + n;
      var found := IndexOf(stream[..filled], END);
      if found.Some? {
        return Some(stream[..filled]);
      }
    }
    return None;
  }

  function Head(stream: bytes): bytes {
    stream[..Min(RESPONSE_MAX, |stream|)]
  }

  lemma ContainsGrows(stream: bytes, m: nat, n: nat, pat: bytes)
    requires m <= n <= |stream| && Contains(stream[..m], pat)
    ensures Contains(stream[..n], pat)
  {
    var i: nat :| Has(stream[..m], i, pat);
    assert stream[..n][i..i + |pat|] == stream[..m][i..i + |pat|];
    assert Has(stream[..n], i, pat);
  }

  lemma {:induction false} ReadFromIff(stream: bytes, sock: Socket, filled: nat)
    requires filled <= |Head(stream)| && !Contains(stream[..filled], END)
    ensures var r := ReadFrom(stream, sock, filled);
            && (r.Some? ==> r.value <= |Head(stream)| && Contains(stream[..r.value], END))
            && (Healthy(sock) && Contains(Head(stream), END) ==> r.Some?)
    decreases |stream| - filled
  {
    if filled < RESPONSE_MAX && sock(filled).Some? {
      var n := Delivered(stream, filled, sock(filled).value);
      FoundIffContained(stream[..filled + n], END);
      if n > 0 && Find(stream[..filled + n], END, 0).None? {
        ReadFromIff(stream, sock, filled + n);
      }
    }
  }

  /** Carriage return, line feed, twice. */
  ghost predicate EmptyLineAt(stream: bytes, i: nat) {
    i + 4 <= |stream| && stream[i] == 13 && stream[i + 1] == 10 && stream[i + 2] == 13 && stream[i + 3] == 10
  }

  lemma EmptyLineIsEnd(stream: bytes, i: nat)
    ensures EmptyLineAt(stream, i) <==> Has(stream, i, END)
  {
    if i + 4 <= |stream| {
      var w := stream[i..i + 4];
      assert w[0] == stream[i] && w[1] == stream[i + 1] && w[2] == stream[i + 2] && w[3] == stream[i + 3];
    }
  }

  lemma EndInHead(stream: bytes)
    ensures Contains(Head(stream), END) <==> exists i: nat :: i + 4 <= 8192 && EmptyLineAt(stream, i)
  {
    hide Has, EmptyLineAt;
    forall i: nat
      ensures Has(Head(stream), i, END) <==> i + 4 <= 8192 && EmptyLineAt(stream, i)
    {
      HasInPrefix(stream, |Head(stream)|, i, END);
      EmptyLineIsEnd(stream, i);
      HasLength(stream, i, END);
    }
  }

  /**
   * However the bytes arrive, a response is read exactly when an empty line ends within the
   * first 8192 bytes; a failing socket can only turn success into failure.
   */
  lemma ReadSucceedsIff(stream: bytes, sock: Socket)
    ensures ReadFrom(stream, sock, 0).Some? ==> Contains(stream[..ReadFrom(stream, sock, 0).value], END)
    ensures ReadFrom(stream, sock, 0).Some? ==>
              ReadFrom(stream, sock, 0).value <= |Head(stream)| && Contains(Head(stream), END)
    ensures Healthy(sock) ==> (ReadFrom(stream, sock, 0).Some? <==> Contains(Head(stream), END))
    ensures Healthy(sock) ==>
              (ReadFrom(stream, sock, 0).Some? <==> exists i: nat :: i + 4 <= 8192 && EmptyLineAt(stream, i))
  {
    EndInHead(stream);
    assert stream[..0] == [];
    assert forall i: nat :: !Has([], i, END);
    ReadFromIff(stream, sock, 0);
    var r := ReadFrom(stream, sock, 0);
    if r.Some? {
      ContainsGrows(stream, r.value, |Head(stream)|, END);
    }
  }

  // The status.

  /** The text between the first and the second space of the first line. */
  function StatusText(response: bytes): Option<bytes> {
    match Find(response, CRLF, 0)
    case None => None
    case Some(e) =>
      var line := response[..e];
      match Find(line, [SPACE], 0)
      case None => None
      case Some(i) =>
        var rest := line[i + 1..];
        match Find(rest, [SPACE], 0)
        case None => Some(rest)
        case Some(j) => Some(rest[..j])
  }

  /** Number parsing is the library's. */
  type Parse = bytes -> Option<nat>

  function Status(response: bytes, parse: Parse): Option<nat> {
    match StatusText(response)
    case None => None
    case Some(t) => parse(t)
  }

  method ParseStatusLine(response: bytes, parse: Parse) returns (r: Option<nat>)
    ensures r == Status(response, parse)
  {
    var crlf := IndexOf(response, CRLF);
    if crlf.None? {
      return None;
    }
    var line := response[..crlf.value];
    var first := IndexOf(line, [SPACE]);
    if first.None? {
      return None;
    }
    var rest := line[first.value + 1..];
    var second := IndexOf(rest, [SPACE]);
    return parse(if second.None? then rest else rest[..second.value]);
  }

  /** The text is a first line `version code ...` with this code, and what follows the line. */
  ghost predicate FirstLine(s: bytes, version: bytes, code: bytes, rest: bytes, more: bytes) {
    && s == version + [32] + code + rest + [13, 10] + more
    && 32 !in version && 32 !in code && (rest == [] || rest[0] == 32)
    && !Contains(version + [32] + code + rest, [13, 10])
  }

  ghost predicate HasCode(s: bytes, code: bytes) {
    exists version, rest, more :: FirstLine(s, version, code, rest, more)
  }

  lemma LineEnds(line: bytes, more: bytes)
    requires !Contains(line, CRLF)
    ensures Find(line + CRLF + more, CRLF, 0) == Some(|line|)
  {
    var s := line + CRLF + more;
    FindIsFirst(s, CRLF, 0);
    assert Has(s, |line|, CRLF);
    var e := Find(s, CRLF, 0).value;
    assert s[e..e + 2][1] == s[e + 1] == 10;
    if e < |line| {
      assert s[..|line|] == line;
      HasInPrefix(s, |line|, e, CRLF);
      assert false;
    }
  }

  lemma SpaceAt(s: bytes, i: nat)
    ensures Has(s, i, [SPACE]) <==> i < |s| && s[i] == 32
  {
    if i < |s| {
      assert s[i..i + 1] == [s[i]];
    }
  }

  /** A search for a space finds the end of the first word. */
  lemma WordEnds(s: bytes, n: nat)
    requires n <= |s|
    ensures Find(s, [SPACE], 0) == (if n == |s| then None else Some(n)) <==>
            32 !in s[..n] && (n < |s| ==> s[n] == 32)
  {
    hide Find, Has;
    FindIsFirst(s, [SPACE], 0);
    var e := Find(s, [SPACE], 0);
    forall i: nat
      ensures Has(s, i, [SPACE]) <==> i < |s| && s[i] == 32
    {
      SpaceAt(s, i);
    }
    assert forall k: nat :: k < n ==> s[..n][k] == s[k] && (Has(s, k, [SPACE]) <==> s[k] == 32);
    assert n < |s| ==> (Has(s, n, [SPACE]) <==> s[n] == 32);
  }

  lemma FirstLineRead(s: bytes, version: bytes, code: bytes, rest: bytes, more: bytes)
    requires FirstLine(s, version, code, rest, more)
    ensures StatusText(s) == Some(code)
  {
    hide Find;
    var line := version + [32] + code + rest;
    assert s == line + CRLF + more;
    LineEnds(line, more);
    assert s[..|line|] == line == version + ([32] + code + rest);
    assert line[..|version|] == version;
    WordEnds(line, |version|);
    assert line[|version| + 1..] == code + rest;
    assert line[|version|] == 32;
    assert (code + rest)[..|code|] == code && (rest == [] ==> code + rest == code);
    WordEnds(code + rest, |code|);
  }

  /**
   * The status text is the code of the first line, wherever the line ends and whatever comes
   * after the code; there is none exactly when no such line can be made out.
   */
  lemma StatusTextIff(s: bytes, code: bytes)
    ensures StatusText(s) == Some(code) <==> HasCode(s, code)
  {
    hide Find;
    if version, rest, more :| FirstLine(s, version, code, rest, more) {
      FirstLineRead(s, version, code, rest, more);
    }
    if StatusText(s) == Some(code) {
      var line, more := TakeLine(s);
      var version, rest := TakeWords(line, code);
      assert FirstLine(s, version, code, rest, more);
    }
  }

  lemma TakeLine(s: bytes) returns (line: bytes, more: bytes)
    requires Find(s, CRLF, 0).Some?
    ensures s == line + [13, 10] + more && !Contains(line, [13, 10])
    ensures line == s[..Find(s, CRLF, 0).value]
  {
    FindIsFirst(s, CRLF, 0);
    var e := Find(s, CRLF, 0).value;
    line, more := s[..e], s[e + 2..];
    assert s == line + s[e..e + 2] + more;
    forall k: nat
      ensures !Has(line, k, CRLF)
    {
      HasInPrefix(s, e, k, CRLF);
    }
  }

  lemma TakeWords(line: bytes, code: bytes) returns (version: bytes, rest: bytes)
    requires Find(line, [SPACE], 0).Some?
    requires var tail := line[Find(line, [SPACE], 0).value + 1..];
             code == match Find(tail, [SPACE], 0) case None => tail case Some(j) => tail[..j]
    ensures line == version + [32] + code + rest
    ensures 32 !in version && 32 !in code && (rest == [] || rest[0] == 32)
  {
    hide Find;
    var i := Find(line, [SPACE], 0).value;
    WordEnds(line, i);
    var tail := line[i + 1..];
    WordEnds(tail, |code|);
    version, rest := line[..i], tail[|code|..];
    Cut(line, i);
    Rejoin(version, tail, |code|);
  }

  lemma Cut(s: bytes, i: nat)
    requires i < |s|
    ensures s == s[..i] + [s[i]] + s[i + 1..]
  {
  }

  lemma Rejoin(front: bytes, tail: bytes, n: nat)
    requires n <= |tail|
    ensures front + [32] + tail == front + [32] + tail[..n] + tail[n..]
  {
  }

  /** The usual lines: with a reason, and without. */
  lemma UsualStatusLine(version: bytes, code: bytes, reason: bytes, more: bytes)
    requires forall x :: x in version || x in code ==> x != 32 && x != 13
    requires 13 !in reason
    ensures StatusText(version + [32] + code + [32] + reason + [13, 10] + more) == Some(code)
    ensures StatusText(version + [32] + code + [13, 10] + more) == Some(code)
  {
    hide StatusText;
    var line := version + [32] + code + ([32] + reason);
    assert line + [13, 10] + more == version + [32] + code + [32] + reason + [13, 10] + more;
    NoReturnNoEnd(line);
    FirstLineRead(line + [13, 10] + more, version, code, [32] + reason, more);
    var bare := version + [32] + code + [];
    assert bare + [13, 10] + more == version + [32] + code + [13, 10] + more;
    NoReturnNoEnd(bare);
    FirstLineRead(bare + [13, 10] + more, version, code, [], more);
  }

  lemma NoReturnNoEnd(line: bytes)
    requires 13 !in line
    ensures !Contains(line, [13, 10])
  {
    forall i: nat
      ensures !Has(line, i, [13, 10])
    {
      if i + 2 <= |line| {
        assert line[i..i + 2][0] == line[i];
      }
    }
  }

  /** Every split that reads the response at all finds the same status in it. */
  lemma StatusIgnoresSplits(stream: bytes, sock: Socket, parse: Parse)
    requires ReadFrom(stream, sock, 0).Some?
    ensures Status(stream[..ReadFrom(stream, sock, 0).value], parse) == Status(Head(stream), parse)
  {
    ReadSucceedsIff(stream, sock);
    var n := ReadFrom(stream, sock, 0).value;
    SameFirstLine(stream, n);
    SameFirstLine(stream, |Head(stream)|);
  }

  lemma SameFirstLine(stream: bytes, n: nat)
    requires n <= |stream| && Contains(stream[..n], END)
    ensures StatusText(stream[..n]) == StatusText(stream)
  {
    var s := stream[..n];
    var i: nat :| Has(s, i, END);
    assert s[i..i + 2] == END[..2] by {
      assert s[i..i + 4][..2] == s[i..i + 2];
    }
    assert Has(s, i, CRLF);
    FindIsFirst(s, CRLF, 0);
    FindInPrefix(stream, n, CRLF);
    FindIsFirst(stream, CRLF, 0);
    var e := Find(s, CRLF, 0).value;
    assert s[..e] == stream[..e];
  }

  // The handshake.

  datatype Result = Tunnel | HandshakeFailed | ProxyAuthRequired | UnexpectedResponse

  /** What one attempt brings: the status, and how much of the waiting bytes was used up. */
  datatype Attempt = Attempt(status: nat, used: nat)

  function TryOnce(waiting: bytes, sent: bool, sock: Socket, parse: Parse): Option<Attempt> {
    if !sent then None
    else match ReadFrom(waiting, sock, 0)
         case None => None
         case Some(n) =>
           match Status(waiting[..n], parse)
           case None => None
           case Some(status) => Some(Attempt(status, n))
  }

  /** What is waiting at the second attempt: unread bytes of the first reply, then the second. */
  function Waiting(replies: nat -> bytes, first: Option<Attempt>): bytes {
    match first
    case Some(Attempt(_, used)) => (if used <= |replies(0)| then replies(0)[used..] else []) + replies(1)
    case None => replies(1)
  }

  function Handshake(replies: nat -> bytes, sent: nat -> bool, socks: nat -> Socket, parse: Parse): Result {
    var first := TryOnce(replies(0), sent(0), socks(0), parse);
    if first.None? then HandshakeFailed
    else if first.value.status == 200 then Tunnel
    else if first.value.status != 407 then UnexpectedResponse
    else
      var second := TryOnce(Waiting(replies, first), sent(1), socks(1), parse);
      if second.None? then HandshakeFailed
      else if second.value.status == 200 then Tunnel
      else if second.value.status == 407 then ProxyAuthRequired
      else UnexpectedResponse
  }

  /** `connect`: at most two requests; a tunnel only after a reply with status 200. */
  method Connect(replies: nat -> bytes, sent: nat -> bool, socks: nat -> Socket, parse: Parse)
    returns (r: Result, ghost statuses: seq<nat>, ghost requests: nat)
    ensures r == Handshake(replies, sent, socks, parse)
    ensures 1 <= requests <= 2 && |statuses| <= requests
    ensures var first := TryOnce(replies(0), sent(0), socks(0), parse);
            && (|statuses| > 0 ==> first.Some? && statuses[0] == first.value.status)
            && (|statuses| > 1 ==>
                  var second := TryOnce(Waiting(replies, first), sent(1), socks(1), parse);
                  second.Some? && statuses[1] == second.value.status)
    ensures requests == 2 <==> |statuses| > 0 && statuses[0] == 407
    ensures r == Tunnel <==> statuses == [200] || statuses == [407, 200]
    ensures r == ProxyAuthRequired <==> statuses == [407, 407]
    ensures r == HandshakeFailed <==> |statuses| < requests
    ensures r == UnexpectedResponse <==> |statuses| == requests && statuses[requests - 1] !in {200, 407}
  {
    var attempt := 0;
    var waiting := replies(0);
    statuses, requests := [], 0;
    while attempt < 2
      invariant attempt == requests == |statuses| <= 1
      invariant attempt == 0 ==> waiting == replies(0)
      invariant attempt == 1 ==>
                  && statuses == [407]
                  && TryOnce(replies(0), sent(0), socks(0), parse).Some?
                  && TryOnce(replies(0), sent(0), socks(0), parse).value.status == 407
                  && waiting == Waiting(replies, TryOnce(replies(0), sent(0), socks(0), parse))
      decreases 2 - attempt
    {
      requests := requests + 1;
      if !sent(attempt) {
        return HandshakeFailed, statuses, requests;
      }
      ReadSucceedsIff(waiting, socks(attempt));
      var response := ReadResponse(waiting, socks(attempt));
      if response.None? {
        return HandshakeFailed, statuses, requests;
      }
      var status := ParseStatusLine(response.value, parse);
      if status.None? {
        return HandshakeFailed, statuses, requests;
      }
      statuses := statuses + [status.value];
      assert statuses[attempt] == status.value;
      if status.value == 200 {
        return Tunnel, statuses, requests;
      }
      if status.value == 407 {
        if attempt == 0 {
          waiting := waiting[|response.value|..] + replies(1);
          attempt := 1;
          continue;
        }
        return ProxyAuthRequired, statuses, requests;
      }
      return UnexpectedResponse, statuses, requests;
    }
    assert false;
  }

  /** What a healthy socket makes of a reply whose header fits the buffer. */
  lemma HealthyAttempt(waiting: bytes, sock: Socket, parse: Parse, code: bytes)
    requires Healthy(sock) && HasCode(waiting, code)
    requires exists i: nat :: i + 4 <= 8192 && EmptyLineAt(waiting, i)
    ensures var a := TryOnce(waiting, true, sock, parse);
            && (a.None? <==> parse(code).None?)
            && (a.Some? ==> Some(a.value.status) == parse(code) && a.value.used <= |Head(waiting)|)
  {
    hide StatusText, HasCode;
    StatusTextIff(waiting, code);
    ReadSucceedsIff(waiting, sock);
    StatusIgnoresSplits(waiting, sock, parse);
    assert waiting[..|Head(waiting)|] == Head(waiting);
    SameFirstLine(waiting, |Head(waiting)|);
  }

  /** The outcome of a handshake whose first reply has its header within the buffer and this status code. */
  lemma FirstReplyOutcome(replies: nat -> bytes, sent: nat -> bool, socks: nat -> Socket, parse: Parse, code: bytes)
    requires sent(0) && Healthy(socks(0)) && HasCode(replies(0), code)
    requires exists i: nat :: i + 4 <= 8192 && EmptyLineAt(replies(0), i)
    ensures parse(code) == Some(200) ==> Handshake(replies, sent, socks, parse) == Tunnel
    ensures parse(code).None? ==> Handshake(replies, sent, socks, parse) == HandshakeFailed
    ensures parse(code).Some? && parse(code).value !in {200, 407} ==>
              Handshake(replies, sent, socks, parse) == UnexpectedResponse
  {
    hide TryOnce, HasCode;
    HealthyAttempt(replies(0), socks(0), parse, code);
  }

  /** On any socket: no tunnel unless the first reply has an empty line in time and says 200 or 407. */
  lemma NoTunnelWithoutStatus(replies: nat -> bytes, sent: nat -> bool, socks: nat -> Socket, parse: Parse)
    requires Handshake(replies, sent, socks, parse) in {Tunnel, ProxyAuthRequired}
    ensures sent(0) && exists i: nat :: i + 4 <= 8192 && EmptyLineAt(replies(0), i)
    ensures exists code :: HasCode(replies(0), code) && parse(code) in {Some(200), Some(407)}
  {
    hide StatusText, HasCode;
    var s := replies(0);
    ReadSucceedsIff(s, socks(0));
    EndInHead(s);
    StatusIgnoresSplits(s, socks(0), parse);
    assert s[..|Head(s)|] == Head(s);
    SameFirstLine(s, |Head(s)|);
    StatusTextIff(s, StatusText(s).value);
  }

  /** After a 407 that ends with its header, the second reply gives the outcome. */
  lemma SecondReplyOutcome(replies: nat -> bytes, sent: nat -> bool, socks: nat -> Socket, parse: Parse,
                           first: bytes, code: bytes)
    requires sent(0) && Healthy(socks(0)) && HasCode(replies(0), first) && parse(first) == Some(407)
    requires |replies(0)| <= 8192 && NothingAfterHeader(replies(0)) && exists i: nat :: EmptyLineAt(replies(0), i)
    requires sent(1) && Healthy(socks(1)) && HasCode(replies(1), code)
    requires exists i: nat :: i + 4 <= 8192 && EmptyLineAt(replies(1), i)
    ensures parse(code) == Some(200) ==> Handshake(replies, sent, socks, parse) == Tunnel
    ensures parse(code) == Some(407) ==> Handshake(replies, sent, socks, parse) == ProxyAuthRequired
    ensures parse(code).None? ==> Handshake(replies, sent, socks, parse) == HandshakeFailed
    ensures parse(code).Some? && parse(code).value !in {200, 407} ==>
              Handshake(replies, sent, socks, parse) == UnexpectedResponse
  {
    hide HasCode, ReadFrom;
    var i: nat :| EmptyLineAt(replies(0), i);
    assert i + 4 <= 8192 && EmptyLineAt(replies(0), i);
    HealthyAttempt(replies(0), socks(0), parse, first);
    HealthyAttempt(replies(1), socks(1), parse, code);
    assert Head(replies(0)) == replies(0);
    UsesWholeHead(replies(0), socks(0));
    assert replies(0)[|replies(0)|..] + replies(1) == replies(1);
  }

  /** The text ends with its first empty line. */
  ghost predicate NothingAfterHeader(reply: bytes) {
    forall n: nat :: n <= |reply| && Contains(reply[..n], END) ==> n == |reply|
  }

  /** Two sockets see the same outcome when the buffer can hold nothing behind the first header. */
  lemma HandshakeIgnoresSplits(replies: nat -> bytes, sent: nat -> bool, socks: nat -> Socket, socks': nat -> Socket,
                               parse: Parse)
    requires NothingAfterHeader(Head(replies(0)))
    requires forall a :: Healthy(socks(a)) && Healthy(socks'(a))
    ensures Handshake(replies, sent, socks, parse) == Handshake(replies, sent, socks', parse)
  {
    SameAttempt(replies(0), sent(0), socks(0), socks'(0), parse);
    var first := TryOnce(replies(0), sent(0), socks(0), parse);
    var first' := TryOnce(replies(0), sent(0), socks'(0), parse);
    if first.Some? {
      UsesWholeHead(replies(0), socks(0));
      UsesWholeHead(replies(0), socks'(0));
      SameAttempt(Waiting(replies, first), sent(1), socks(1), socks'(1), parse);
    }
  }

  lemma UsesWholeHead(stream: bytes, sock: Socket)
    requires NothingAfterHeader(Head(stream)) && ReadFrom(stream, sock, 0).Some?
    ensures ReadFrom(stream, sock, 0).value == |Head(stream)|
  {
    ReadSucceedsIff(stream, sock);
    var n := ReadFrom(stream, sock, 0).value;
    assert Head(stream)[..n] == stream[..n];
  }

  /** Without a status, or with any other than 407, the first reply settles the outcome. */
  lemma FirstStatusSettles(replies: nat -> bytes, sent: nat -> bool, socks: nat -> Socket, socks': nat -> Socket,
                           parse: Parse)
    requires Status(Head(replies(0)), parse) != Some(407)
    requires forall a :: Healthy(socks(a)) && Healthy(socks'(a))
    ensures Handshake(replies, sent, socks, parse) == Handshake(replies, sent, socks', parse)
  {
    SameAttempt(replies(0), sent(0), socks(0), socks'(0), parse);
    if ReadFrom(replies(0), socks(0), 0).Some? {
      StatusIgnoresSplits(replies(0), socks(0), parse);
    }
  }

  lemma SameAttempt(waiting: bytes, sent: bool, sock: Socket, sock': Socket, parse: Parse)
    requires Healthy(sock) && Healthy(sock')
    ensures TryOnce(waiting, sent, sock, parse).Some? <==> TryOnce(waiting, sent, sock', parse).Some?
    ensures TryOnce(waiting, sent, sock, parse).Some? ==>
              TryOnce(waiting, sent, sock, parse).value.status == TryOnce(waiting, sent, sock', parse).value.status
  {
    ReadSucceedsIff(waiting, sock);
    ReadSucceedsIff(waiting, sock');
    if ReadFrom(waiting, sock, 0).Some? {
      StatusIgnoresSplits(waiting, sock, parse);
      StatusIgnoresSplits(waiting, sock', parse);
    }
  }

  // What happens otherwise.

  lemma FirstSight(s: bytes, pat: bytes, i: nat)
    requires pat != [] && Has(s, i, pat) && forall j :: 0 <= j < i ==> s[j] != pat[0]
    ensures Find(s, pat, 0) == Some(i)
  {
    FindIsFirst(s, pat, 0);
    var k := Find(s, pat, 0).value;
    assert s[k] == s[k..k + |pat|][0];
  }

  /** A first line `v sp code`, then the empty line, then anything. */
  function Reply(v: byte, code: byte, more: bytes): bytes {
    [v, SPACE, code, 13, 10, 13, 10] + more
  }

  lemma ReplyRead(v: byte, code: byte, more: bytes, sock: Socket, willing: nat, parse: Parse)
    requires v != SPACE && v != 13 && code != SPACE && code != 13 && |more| < 100
    requires sock(0) == Some(willing) && willing >= 7
    ensures TryOnce(Reply(v, code, more), true, sock, parse) ==
            match parse([code])
            case None => None
            case Some(status) => Some(Attempt(status, Min(willing, 7 + |more|)))
  {
    var s := Reply(v, code, more);
    var n := Min(willing, |s|);
    assert Delivered(s, 0, willing) == n;
    assert s[..n] == [v, SPACE, code, 13, 10, 13, 10] + more[..n - 7];
    assert s[..n][3..7] == END && s[..n][3..5] == CRLF;
    FirstSight(s[..n], END, 3);
    FirstSight(s[..n], CRLF, 3);
    var line := s[..n][..3];
    assert line == [v, SPACE, code];
    assert Has(line, 1, [SPACE]);
    FirstSight(line, [SPACE], 1);
    var rest := line[2..];
    assert rest == [code];
    assert rest[0..1] == [code] && Find(rest, [SPACE], 1).None?;
    assert StatusText(s[..n]) == Some([code]);
  }

  /** The reply that starts with leftover bytes ` 9 `: its status is read out of those. */
  lemma LeftoverRead(sock: Socket, parse: Parse)
    requires sock(0) == Some(100)
    ensures TryOnce([SPACE, 9, SPACE] + Reply(1, 2, []), true, sock, parse) ==
            match parse([9])
            case None => None
            case Some(status) => Some(Attempt(status, 10))
  {
    var s := [SPACE, 9, SPACE] + Reply(1, 2, []);
    assert Delivered(s, 0, 100) == 10 && s[..10] == s;
    assert Has(s, 6, END) && Has(s, 6, CRLF);
    FirstSight(s, END, 6);
    FirstSight(s, CRLF, 6);
    var line := s[..6];
    assert line == [SPACE, 9, SPACE, 1, SPACE, 2];
    assert Has(line, 0, [SPACE]);
    FirstSight(line, [SPACE], 0);
    var rest := line[1..];
    assert Has(rest, 1, [SPACE]);
    FirstSight(rest, [SPACE], 1);
    assert rest[..1] == [9];
  }

  /**
   * With a body behind the 407 header the outcome depends on the split: a socket that delivers
   * everything at once hides the body, one that stops at the header leaves it in front of the
   * second reply. (Here code byte 1 parses as 407, 2 as 200, anything else as 500.)
   */
  lemma LeftoverBytesMatter() returns (replies: nat -> bytes, socks: nat -> Socket, socks': nat -> Socket, parse: Parse)
    ensures forall a :: Healthy(socks(a)) && Healthy(socks'(a))
    ensures Handshake(replies, _ => true, socks, parse) == Tunnel
    ensures Handshake(replies, _ => true, socks', parse) == UnexpectedResponse
  {
    hide TryOnce;
    var body: bytes := [SPACE, 9, SPACE];
    var first, second := Reply(1, 1, body), Reply(1, 2, []);
    var greedy: Socket := _ => Some(100);
    var exact: Socket := _ => Some(7);
    replies := n => if n == 0 then first else second;
    socks := _ => greedy;
    socks' := n => if n == 0 then exact else greedy;
    parse := t => Some(if t == [1] then 407 else if t == [2] then 200 else 500);
    ReplyRead(1, 1, body, greedy, 100, parse);
    ReplyRead(1, 1, body, exact, 7, parse);
    ReplyRead(1, 2, [], greedy, 100, parse);
    LeftoverRead(greedy, parse);
    assert first[10..] + second == second;
    assert first[7..] == body;
  }

  // Which first replies of at most a buffer's length are read the same way by every socket.

  function Replies(first: bytes, second: bytes): nat -> bytes {
    n => if n == 0 then first else second
  }

  ghost predicate AllHealthy(socks: nat -> Socket) {
    forall a :: Healthy(socks(a))
  }

  /** Whatever follows the reply and however both are split, the outcome is one and the same. */
  ghost predicate SplitsIgnored(reply: bytes, parse: Parse) {
    forall second: bytes, sent: nat -> bool, socks: nat -> Socket, socks': nat -> Socket ::
      AllHealthy(socks) && AllHealthy(socks') ==>
        Handshake(Replies(reply, second), sent, socks, parse) == Handshake(Replies(reply, second), sent, socks', parse)
  }

  /** A status text that a reply filling the buffer can carry. */
  ghost predicate Carried(u: bytes) {
    |u| + 7 <= RESPONSE_MAX && forall j :: 0 <= j < |u| ==> u[j] != SPACE && u[j] != 13 && u[j] != 10
  }

  /** All a parser of status numbers has to do here: read one text as 200, and another as something else. */
  ghost predicate Discerns(parse: Parse, ok: bytes, other: bytes) {
    && Carried(ok) && parse(ok) == Some(200)
    && Carried(other) && parse(other).Some? && parse(other) != Some(200)
  }

  /** Decimal parsing does, with the texts `200` and `404`. */
  lemma DecimalDiscerns(parse: Parse)
    requires parse([50, 48, 48]) == Some(200) && parse([52, 48, 52]) == Some(404)
    ensures Discerns(parse, [50, 48, 48], [52, 48, 52])
  {
  }

  function Filler(u: bytes): bytes
    requires |u| + 7 <= RESPONSE_MAX
  {
    seq(RESPONSE_MAX - 7 - |u|, _ => 2)
  }

  /** A reply with status text u that fills the buffer to the last byte. */
  function FullReply(u: bytes): (r: bytes)
    requires |u| + 7 <= RESPONSE_MAX
    ensures |r| == RESPONSE_MAX
  {
    [1, SPACE] + u + [SPACE] + Filler(u) + END
  }

  /** Its line feeds and carriage returns are those of its last four bytes. */
  lemma FullReplyAt(u: bytes, k: nat)
    requires Carried(u) && k < RESPONSE_MAX
    ensures k < RESPONSE_MAX - 4 ==> FullReply(u)[k] != 13 && FullReply(u)[k] != 10
    ensures k >= RESPONSE_MAX - 4 ==> FullReply(u)[k] == END[k - (RESPONSE_MAX - 4)]
  {
  }

  lemma FullReplyStatus(u: bytes)
    requires Carried(u)
    ensures StatusText(FullReply(u)) == Some(u) && Find(FullReply(u), END, 0) == Some(RESPONSE_MAX - 4)
  {
    var s, e := FullReply(u), RESPONSE_MAX - 4;
    assert s[e..e + 4] == END && s[e..e + 2] == CRLF;
    forall j: nat | j < e
      ensures s[j] != 13
    {
      FullReplyAt(u, j);
    }
    FirstSight(s, END, e);
    FirstSight(s, CRLF, e);
    var line, rest := s[..e], u + [SPACE] + Filler(u);
    assert line == [1, SPACE] + rest;
    assert line[1..2] == [SPACE];
    FirstSight(line, [SPACE], 1);
    assert line[2..] == rest && rest[|u|..|u| + 1] == [SPACE];
    FirstSight(rest, [SPACE], |u|);
    assert rest[..|u|] == u;
  }

  /** Read by itself the full reply gives its status. */
  lemma FullReplyRead(u: bytes, sock: Socket, parse: Parse)
    requires Carried(u) && sock(0) == Some(RESPONSE_MAX) && parse(u).Some?
    ensures TryOnce(FullReply(u), true, sock, parse) == Some(Attempt(parse(u).value, RESPONSE_MAX))
  {
    hide StatusText, Find, FullReply;
    FullReplyStatus(u);
    assert FullReply(u)[..RESPONSE_MAX] == FullReply(u);
  }

  /** Behind even one leftover byte, an empty line in the buffer can only be one of the leftovers. */
  lemma EndIsLeftover(x: bytes, u: bytes, i: nat)
    requires x != [] && Carried(u) && Has(Head(x + FullReply(u)), i, END)
    ensures Has(x, i, END)
  {
    hide FullReply;
    var s := x + FullReply(u);
    var h := Head(s);
    assert h[i..i + 4] == END;
    assert s[i + 1] == h[i..i + 4][1] && s[i + 3] == h[i..i + 4][3];
    if i + 4 > |x| {
      var k := i + 3 - |x|;
      FullReplyAt(u, k);
      assert k == RESPONSE_MAX - 3;
      FullReplyAt(u, k - 2);
      assert false;
    }
    assert h[i..i + 4] == s[i..i + 4] == x[i..i + 4];
  }

  /** Leftovers in front of a full reply alone decide what is read. */
  lemma LeftoverDecides(x: bytes, u: bytes, sock: Socket, parse: Parse)
    requires 0 < |x| <= RESPONSE_MAX && Carried(u) && Healthy(sock)
    ensures var second := TryOnce(x + FullReply(u), true, sock, parse);
            && (!Contains(x, END) ==> second.None?)
            && (Contains(x, END) ==> (second.Some? <==> Status(x, parse).Some?))
            && (second.Some? ==> Some(second.value.status) == Status(x, parse))
  {
    hide StatusText, FullReply, Find;
    var s := x + FullReply(u);
    ReadSucceedsIff(s, sock);
    assert Head(s)[..|x|] == x;
    if Contains(Head(s), END) {
      var i: nat :| Has(Head(s), i, END);
      EndIsLeftover(x, u, i);
    }
    if Contains(x, END) {
      assert Head(s)[..|Head(s)|] == Head(s);
      ContainsGrows(Head(s), |x|, |Head(s)|, END);
      StatusIgnoresSplits(s, sock, parse);
      SameFirstLine(Head(s), |x|);
    }
  }

  /** A socket that stops at the first header, and one that takes all there is. */
  lemma TwoSplits(reply: bytes, n: nat, parse: Parse, ok: bytes, other: bytes)
    requires 4 <= n < |reply| <= RESPONSE_MAX && Contains(reply[..n], END)
    requires StatusText(reply).Some? && parse(StatusText(reply).value) == Some(407)
    requires Discerns(parse, ok, other)
    ensures !SplitsIgnored(reply, parse)
  {
    hide FullReply, StatusText, TryOnce, ReadFrom;
    var x := reply[n..];
    var u := if Contains(x, END) && Status(x, parse) == Some(200) then other else ok;
    var greedy: Socket := _ => Some(RESPONSE_MAX);
    var exact: Socket := _ => Some(n);
    var all: nat -> Socket := _ => greedy;
    var stop: nat -> Socket := k => if k == 0 then exact else greedy;
    var sent: nat -> bool := _ => true;
    var replies := Replies(reply, FullReply(u));
    TakesAll(reply, greedy, parse);
    StopsAt(reply, n, exact, parse);
    FullReplyRead(u, greedy, parse);
    LeftoverDecides(x, u, greedy, parse);
    assert reply[|reply|..] + FullReply(u) == FullReply(u);
    assert Handshake(replies, sent, all, parse) == Tunnel <==> u == ok;
    assert Handshake(replies, sent, stop, parse) == Tunnel <==> u == other;
    assert AllHealthy(all) && AllHealthy(stop);
  }

  lemma StopsAt(reply: bytes, n: nat, sock: Socket, parse: Parse)
    requires 4 <= n <= |reply| <= RESPONSE_MAX && Contains(reply[..n], END) && sock(0) == Some(n)
    requires StatusText(reply).Some?
    ensures TryOnce(reply, true, sock, parse) ==
            match parse(StatusText(reply).value)
            case None => None
            case Some(status) => Some(Attempt(status, n))
  {
    assert Delivered(reply, 0, n) == n;
    FoundIffContained(reply[..n], END);
    SameFirstLine(reply, n);
  }

  lemma TakesAll(reply: bytes, sock: Socket, parse: Parse)
    requires |reply| <= RESPONSE_MAX && sock(0) == Some(RESPONSE_MAX)
    requires StatusText(reply).Some? && exists n: nat :: n <= |reply| && Contains(reply[..n], END)
    ensures TryOnce(reply, true, sock, parse) ==
            match parse(StatusText(reply).value)
            case None => None
            case Some(status) => Some(Attempt(status, |reply|))
  {
    var n: nat :| n <= |reply| && Contains(reply[..n], END);
    assert reply[..|reply|] == reply;
    ContainsGrows(reply, n, |reply|, END);
    FoundIffContained(reply, END);
    assert Delivered(reply, 0, RESPONSE_MAX) == |reply|;
  }

  /**
   * For a fixed parser of status numbers and a first reply that fits the buffer: whatever the proxy
   * sends next and however the sockets behave, the outcome is the same for all splits, exactly when
   * the reply has no status, or another one than 407, or nothing behind its header.
   */
  lemma SplitsIgnoredIff(reply: bytes, parse: Parse, ok: bytes, other: bytes)
    requires |reply| <= 8192 && Discerns(parse, ok, other)
    ensures SplitsIgnored(reply, parse) <==>
            StatusText(reply).None? || parse(StatusText(reply).value) != Some(407) || NothingAfterHeader(reply)
  {
    assert Head(reply) == reply;
    if Status(reply, parse) != Some(407) || NothingAfterHeader(reply) {
      SafeReply(reply, parse);
    } else {
      var n: nat :| n < |reply| && Contains(reply[..n], END);
      TwoSplits(reply, n, parse, ok, other);
    }
  }

  lemma SafeReply(reply: bytes, parse: Parse)
    requires Status(Head(reply), parse) != Some(407) || NothingAfterHeader(Head(reply))
    ensures SplitsIgnored(reply, parse)
  {
    forall second: bytes, sent: nat -> bool, socks: nat -> Socket, socks': nat -> Socket
      | AllHealthy(socks) && AllHealthy(socks')
      ensures Handshake(Replies(reply, second), sent, socks, parse) ==
              Handshake(Replies(reply, second), sent, socks', parse)
    {
      var replies := Replies(reply, second);
      if Status(Head(reply), parse) != Some(407) {
        FirstStatusSettles(replies, sent, socks, socks', parse);
      } else {
        HandshakeIgnoresSplits(replies, sent, socks, socks', parse);
      }
    }
  }
}
