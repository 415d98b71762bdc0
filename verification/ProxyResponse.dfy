/**
 Reading a proxy's answer to CONNECT, by proxy_read_response and proxy_parse_status of src/socket.c.
 What the peer sends is a sequence of bytes; when and in which portions they arrive is a script.
 */
module ProxyResponse {
  import opened Common
  import opened Decimal

  /** One turn at the socket. */
  datatype Event =
    | TimedOut                          // proxy_wait_readable fails
    | Failed                            // the peek fails for good
    | Again                             // the peek is interrupted
    | Ready(count: nat, takes: nat)     // so many bytes can be peeked; so many the second recv would take

  /** The blank line that ends the answer's headers ends at `n`. */
  predicate EndsAt(s: bytes, n: int) {
    4 <= n <= |s| && s[n - 4] == CARRIAGE_RETURN && s[n - 3] == LINE_FEED
    && s[n - 2] == CARRIAGE_RETURN && s[n - 1] == LINE_FEED
  }

  /** `n` is where the first blank line ends. */
  ghost predicate FirstEnd(s: bytes, n: int) {
    EndsAt(s, n) && forall m :: m < n ==> !EndsAt(s, m)
  }

  ghost predicate NoEnd(s: bytes, n: int) {
    forall m :: m <= n ==> !EndsAt(s, m)
  }

  /** The end of the first blank line that begins at `from` or later and ends by `available`. */
  function Search(s: bytes, from: nat, available: nat): (end: Option<nat>)
    requires available <= |s|
    ensures end.Some? ==> from + 4 <= end.value <= available && EndsAt(s, end.value)
    ensures forall m :: from + 4 <= m <= available && (end.None? || m < end.value) ==> !EndsAt(s, m)
    decreases available - from
  {
    if from + 4 > available then None
    else if EndsAt(s, from + 4) then Some(from + 4)
    else Search(s, from + 1, available)
  }

  function SearchStart(length: nat): nat {
    if length >= 3 then length - 3 else 0
  }

  /** What the loop returns, and how much of the stream it has consumed by then. */
  function Outcome(s: bytes, capacity: nat, script: seq<Event>, length: nat): (r: (Option<nat>, nat))
    requires length <= |s| && length <= capacity
    ensures r.1 <= |s|
    decreases |script|
  {
    if length >= capacity || script == [] then (None, length)
    else
      var rest := script[1..];
      match script[0]
      case TimedOut => (None, length)
      case Failed => (None, length)
      case Again => Outcome(s, capacity, rest, length)
      case Ready(count, takes) =>
        var peeked := Min(count, Min(capacity, |s|) - length);
        if peeked == 0 then (None, length)
        else
          var end := Search(s, SearchStart(length), length + peeked);
          var consume := if end.Some? then end.value - length else peeked;
          if takes < consume then (None, length + takes)
          else if end.Some? then (end, end.value)
          else Outcome(s, capacity, rest, length + peeked)
  }

  // ---------------------------------------------------------------- what the outcome means

  lemma {:induction false} SearchFromStart(s: bytes, length: nat, available: nat)
    requires length <= available <= |s| && NoEnd(s, length)
    ensures var end := Search(s, SearchStart(length), available);
            && (end.Some? ==> length < end.value <= available && FirstEnd(s, end.value))
            && (end.None? ==> NoEnd(s, available))
  {
  }

  /**
   Success consumes exactly the bytes up to the first blank line, however the stream was cut; an
   error never consumes the end of that line.
   */
  lemma {:induction false} OutcomeSound(s: bytes, capacity: nat, script: seq<Event>, length: nat)
    requires length <= |s| && length <= capacity && NoEnd(s, length)
    ensures var (end, consumed) := Outcome(s, capacity, script, length);
            && length <= consumed <= capacity
            && (end.Some? ==> end.value == consumed && FirstEnd(s, consumed))
            && (end.None? ==> NoEnd(s, consumed))
    decreases |script|
  {
    hide NoEnd, FirstEnd, Search, SearchStart;
    if length < capacity && script != [] {
      match script[0]
      case Again => OutcomeSound(s, capacity, script[1..], length);
      case Ready(count, takes) =>
        var peeked := Min(count, Min(capacity, |s|) - length);
        if peeked > 0 {
          SearchFromStart(s, length, length + peeked);
          var end := Search(s, SearchStart(length), length + peeked);
          if end.None? && takes >= peeked {
            OutcomeSound(s, capacity, script[1..], length + peeked);
          } else {
            NoEndBefore(s, length, length + peeked, end);
          }
        }
      case _ =>
    }
  }

  lemma {:induction false} NoEndBefore(s: bytes, length: nat, available: nat, end: Option<nat>)
    requires length <= available <= |s|
    requires if end.Some? then FirstEnd(s, end.value) && length < end.value <= available else NoEnd(s, available)
    ensures forall m :: m < (if end.Some? then end.value else available + 1) ==> NoEnd(s, m)
  {
  }

  /** A script in which every turn is interrupted or finds at least one byte and takes what it asks for. */
  ghost predicate Flowing(script: seq<Event>, capacity: nat) {
    forall k :: 0 <= k < |script| ==>
      script[k] == Again || (script[k].Ready? && script[k].count > 0 && script[k].takes >= capacity)
  }

  /** The bytes the turns of a script ask for, those that find none included. */
  function Offered(script: seq<Event>): nat {
    if script == [] then 0 else (if script[0].Ready? then script[0].count else 0) + Offered(script[1..])
  }

  lemma {:induction false} OneEnd(s: bytes, length: nat, end: nat)
    requires NoEnd(s, length) && FirstEnd(s, end)
    ensures length < end <= |s|
    ensures forall e :: FirstEnd(s, e) ==> e == end
  {
  }

  lemma {:induction false} FlowsOn(script: seq<Event>, capacity: nat)
    requires Flowing(script, capacity) && script != []
    ensures Flowing(script[1..], capacity)
    ensures script[0] == Again || (script[0].Ready? && script[0].count > 0 && script[0].takes >= capacity)
    ensures Offered(script) == (if script[0].Ready? then script[0].count else 0) + Offered(script[1..])
  {
  }

  /**
   While bytes keep coming the answer is found exactly when it ends within the buffer's capacity and
   within the bytes offered: how they are cut into portions makes no difference.
   */
  lemma {:induction false} OutcomeExact(s: bytes, capacity: nat, script: seq<Event>, length: nat, end: nat)
    requires length <= |s| && length <= capacity && NoEnd(s, length) && Flowing(script, capacity)
    ensures Outcome(s, capacity, script, length) == (Some(end), end)
            <==> FirstEnd(s, end) && end <= capacity && end <= length + Offered(script)
    decreases |script|
  {
    hide NoEnd, FirstEnd, Search, SearchStart, Flowing;
    OutcomeSound(s, capacity, script, length);
    if FirstEnd(s, end) {
      OneEnd(s, length, end);
    }
    if length < capacity && script != [] {
      FlowsOn(script, capacity);
      if script[0] == Again {
        OutcomeExact(s, capacity, script[1..], length, end);
      } else {
        var peeked := Min(script[0].count, Min(capacity, |s|) - length);
        SearchFromStart(s, length, length + peeked);
        if peeked > 0 && Search(s, SearchStart(length), length + peeked).None? {
          OutcomeExact(s, capacity, script[1..], length + peeked, end);
        }
      }
    }
  }

  /** A turn that fails, finds the connection closed, or cannot take what it has peeked. */
  predicate Breaks(e: Event) {
    e == TimedOut || e == Failed || (e.Ready? && (e.count == 0 || e.takes == 0))
  }

  /** Such a turn ends the reading like the end of the time allowed: nothing that comes later matters. */
  lemma {:induction false} BrokenTurnEnds(s: bytes, capacity: nat, before: seq<Event>, e: Event, after: seq<Event>,
                                          length: nat)
    requires length <= |s| && length <= capacity && Breaks(e)
    ensures Outcome(s, capacity, before + [e] + after, length) == Outcome(s, capacity, before, length)
    decreases |before|
  {
    hide Search;
    var script := before + [e] + after;
    if before == [] {
      assert script[0] == e;
    } else {
      assert script[0] == before[0] && script[1..] == before[1..] + [e] + after;
      if length < capacity {
        match before[0]
        case Again => BrokenTurnEnds(s, capacity, before[1..], e, after, length);
        case Ready(count, _) =>
          var peeked := Min(count, Min(capacity, |s|) - length);
          BrokenTurnEnds(s, capacity, before[1..], e, after, length + peeked);
        case _ =>
      }
    }
  }

  // ---------------------------------------------------------------- proxy_read_response

  /** The connection: what the peer sends in all, and how much of it has been consumed. */
  class Connection {
    const stream: bytes
    var position: nat

    ghost predicate Valid()
      reads this
    {
      position <= |stream|
    }

    /** What has not been consumed. */
    ghost function Unread(): bytes
      requires Valid()
      reads this
    {
      stream[position..]
    }

    constructor (stream: bytes)
      ensures this.stream == stream && position == 0
    {
      this.stream := stream;
      position := 0;
    }

    /** recv with MSG_PEEK: copies up to `count` bytes without consuming them. */
    method Peek(buffer: array<byte>, at: nat, count: nat) returns (peeked: nat)
      requires Valid() && at <= buffer.Length
      modifies buffer
      ensures peeked == Min(count, Min(buffer.Length - at, |stream| - position))
      ensures forall k {:trigger buffer[k]} :: at <= k < at + peeked ==> buffer[k] == stream[position - at + k]
      ensures forall k :: 0 <= k < at || at + peeked <= k < buffer.Length ==> buffer[k] == old(buffer[k])
    {
      peeked := Min(count, Min(buffer.Length - at, |stream| - position));
      for k := 0 to peeked
        invariant forall m :: 0 <= m < at || at + peeked <= m < buffer.Length ==> buffer[m] == old(buffer[m])
        invariant forall m {:trigger buffer[m]} :: at <= m < at + k ==> buffer[m] == stream[position - at + m]
      {
        buffer[at + k] := stream[position + k];
      }
    }

    /** recv: consumes what it is asked for, or less. */
    method Take(count: nat, takes: nat) returns (received: nat)
      requires Valid() && position + count <= |stream|
      modifies this
      ensures received == Min(count, takes) && position == old(position) + received
    {
      received := Min(count, takes);
      position := position + received;
    }
  }

  /** memcmp with the terminator. */
  predicate Terminates(buffer: array<byte>, index: nat)
    requires index + 4 <= buffer.Length
    reads buffer
  {
    buffer[index] == CARRIAGE_RETURN && buffer[index + 1] == LINE_FEED
    && buffer[index + 2] == CARRIAGE_RETURN && buffer[index + 3] == LINE_FEED
  }

  /** The buffer begins with the first `n` bytes of `s`. */
  ghost predicate Mirrors(buffer: array<byte>, s: bytes, n: nat)
    requires n <= buffer.Length && n <= |s|
    reads buffer
  {
    forall k :: 0 <= k < n ==> buffer[k] == s[k]
  }

  /** The search for the terminator among the bytes at hand. */
  method FindTerminator(buffer: array<byte>, from: nat, available: nat, ghost s: bytes) returns (end: Option<nat>)
    requires available <= buffer.Length && available <= |s| && Mirrors(buffer, s, available)
    ensures end == Search(s, from, available)
  {
    var index := from;
    while index + 4 <= available
      invariant Search(s, from, available) == Search(s, index, available)
      decreases available - index
    {
      if Terminates(buffer, index) {
        return Some(index + 4);
      }
      index := index + 1;
    }
    return None;
  }

  /** The peek of the loop: more of the stream behind what the buffer holds of it. */
  method PeekMore(socket: Connection, response: array<byte>, length: nat, count: nat, ghost start: nat)
    returns (peeked: nat)
    requires socket.Valid() && start + length == socket.position && length <= response.Length
    requires Mirrors(response, socket.stream[start..], length)
    modifies response
    ensures peeked == Min(count, Min(response.Length, |socket.stream| - start) - length)
    ensures Mirrors(response, socket.stream[start..], length + peeked)
  {
    hide Mirrors;
    MirrorsAt(response, socket.stream, start, length);
    peeked := socket.Peek(response, length, count);
    MirrorsMore(response, socket.stream, start, length + peeked);
  }

  /** proxy_read_response; the end of the script is the end of the time allowed. */
  method ReadResponse(socket: Connection, script: seq<Event>, response: array<byte>) returns (result: Option<nat>)
    requires socket.Valid()
    modifies socket, response
    ensures socket.Valid() && old(socket.position) <= socket.position
    ensures (result, socket.position - old(socket.position))
            == Outcome(old(socket.Unread()), response.Length, script, 0)
    ensures result.Some? ==>
              result.value <= response.Length && result.value <= |old(socket.Unread())|
              && Mirrors(response, old(socket.Unread()), result.value)
  {
    hide Outcome, Search, Mirrors, SearchStart;
    var capacity := response.Length;
    var turn, length := 0, 0;
    ghost var start, s := socket.position, socket.Unread();
    assert script[0..] == script;
    MirrorsMore(response, socket.stream, start, 0);
    while true
      invariant 0 <= turn <= |script| && 0 <= length <= capacity && length <= |s|
      invariant socket.position == start + length && Mirrors(response, s, length)
      invariant Outcome(s, capacity, script[turn..], length) == Outcome(s, capacity, script, 0)
      decreases |script| - turn
    {
      OutcomeTurn(s, capacity, script, turn, length);
      if length >= capacity || turn == |script| || script[turn] == TimedOut || script[turn] == Failed {
        return None;
      }
      var event := script[turn];
      turn := turn + 1;
      if event == Again {
        continue;
      }
      var peeked := PeekMore(socket, response, length, event.count, start);
      if peeked == 0 {
        return None;
      }
      var available := length + peeked;
      var end := FindTerminator(response, SearchStart(length), available, s);
      var consume := if end.Some? then end.value - length else peeked;
      var received := socket.Take(consume, event.takes);
      if received != consume {
        return None;
      }
      length := length + consume;
      MirrorsLess(response, s, length, available);
      if end.Some? {
        return Some(length);
      }
    }
  }

  lemma {:induction false} MirrorsMore(buffer: array<byte>, stream: bytes, start: nat, n: nat)
    requires start + n <= |stream| && n <= buffer.Length
    requires forall k {:trigger buffer[k]} :: 0 <= k < n ==> buffer[k] == stream[start + k]
    ensures Mirrors(buffer, stream[start..], n)
  {
  }

  lemma {:induction false} MirrorsLess(buffer: array<byte>, s: bytes, m: nat, n: nat)
    requires m <= n <= |s| && n <= buffer.Length && Mirrors(buffer, s, n)
    ensures Mirrors(buffer, s, m)
  {
  }

  lemma {:induction false} MirrorsAt(buffer: array<byte>, stream: bytes, start: nat, n: nat)
    requires start + n <= |stream| && n <= buffer.Length && Mirrors(buffer, stream[start..], n)
    ensures forall k {:trigger buffer[k]} :: 0 <= k < n ==> buffer[k] == stream[start + k]
  {
  }

  lemma {:induction false} OutcomeTurn(s: bytes, capacity: nat, script: seq<Event>, turn: nat, length: nat)
    requires turn <= |script| && length <= |s| && length <= capacity
    ensures var r := Outcome(s, capacity, script[turn..], length);
            if length >= capacity || turn == |script| || script[turn] == TimedOut || script[turn] == Failed then
              r == (None, length)
            else if script[turn] == Again then r == Outcome(s, capacity, script[turn + 1..], length)
            else
              var peeked := Min(script[turn].count, Min(capacity, |s|) - length);
              if peeked == 0 then r == (None, length)
              else
                var end := Search(s, SearchStart(length), length + peeked);
                var consume := if end.Some? then end.value - length else peeked;
                0 < consume <= peeked
                && if script[turn].takes < consume then r == (None, length + script[turn].takes)
                   else if end.Some? then r == (end, end.value)
                   else r == Outcome(s, capacity, script[turn + 1..], length + peeked)
  {
    hide Search;
    if turn < |script| {
      assert script[turn..][1..] == script[turn + 1..];
    }
  }

  // ---------------------------------------------------------------- proxy_parse_status

  /** HTTP/1. */
  const PREFIX: bytes := [0x48, 0x54, 0x54, 0x50, 0x2F, 0x31, DOT]

  /** A status line of HTTP/1, as far as it is read: version, code, and a space or the end of the line after it. */
  predicate IsStatusLine(response: bytes) {
    |response| >= 13 && response[..7] == PREFIX && IsDigit(response[7]) && response[8] == SPACE
    && AllDigits(response[9..12]) && (response[12] == SPACE || response[12] == CARRIAGE_RETURN)
  }

  method ParseStatus(response: bytes) returns (status: Option<nat>)
    ensures status == if IsStatusLine(response) then Some(DigitsValue(response[9..12])) else None
  {
    if |response| < 13 || response[..7] != PREFIX || !IsDigit(response[7]) || response[8] != SPACE {
      return None;
    }
    hide AllDigits, DigitsValue;
    var code := 0;
    ghost var digits := response[9..12];
    NoDigits();
    for index := 0 to 3
      invariant AllDigits(digits[..index]) && code == DigitsValue(digits[..index])
    {
      assert digits[index] == response[9 + index];
      NextDigit(digits, index);
      if !IsDigit(response[9 + index]) {
        return None;
      }
      code := code * 10 + (response[9 + index] - DIGIT_0);
    }
    assert digits[..3] == digits;
    if response[12] != SPACE && response[12] != CARRIAGE_RETURN {
      return None;
    }
    return Some(code);
  }

  lemma {:induction false} NoDigits()
    ensures AllDigits([]) && DigitsValue([]) == 0
  {
  }

  /** One more digit of a row that are all digits so far; a byte that is none spoils the whole row. */
  lemma {:induction false} NextDigit(s: bytes, i: nat)
    requires i < |s| && AllDigits(s[..i])
    ensures AllDigits(s[..i + 1]) <==> IsDigit(s[i])
    ensures IsDigit(s[i]) ==> DigitsValue(s[..i + 1]) == 10 * DigitsValue(s[..i]) + (s[i] - DIGIT_0)
    ensures AllDigits(s) ==> IsDigit(s[i])
  {
    var t := s[..i + 1];
    assert t == s[..i] + [s[i]];
    assert t[..i] == s[..i];
  }

  /** The bytes of a status line of HTTP/1 with this version digit, code and byte behind it. */
  predicate IsLineOf(response: bytes, version: byte, code: bytes, after: byte, rest: bytes) {
    IsDigit(version) && |code| == 3 && AllDigits(code) && (after == ' ' as int || after == '\r' as int)
    && response == Ascii("HTTP/1.") + [version] + Ascii(" ") + code + [after] + rest
  }

  /** Exactly the lines of that form are accepted, and the status is the value of the code. */
  lemma {:induction false} StatusLineExact(response: bytes)
    ensures IsStatusLine(response) <==>
              exists version, code, after, rest :: IsLineOf(response, version, code, after, rest)
    ensures forall version, code, after, rest :: IsLineOf(response, version, code, after, rest) ==>
              |response| >= 12 && response[9..12] == code
  {
    assert Ascii("HTTP/1.") == PREFIX && Ascii(" ") == [SPACE];
    if IsStatusLine(response) {
      LineParts(response);
    }
    forall version, code, after, rest | IsLineOf(response, version, code, after, rest)
      ensures IsStatusLine(response) && response[9..12] == code
    {
      LineIsStatus(response, version, code, after, rest);
    }
  }

  lemma {:induction false} LineParts(response: bytes)
    requires IsStatusLine(response)
    ensures IsLineOf(response, response[7], response[9..12], response[12], response[13..])
  {
    hide AllDigits;
    assert Ascii("HTTP/1.") == PREFIX && Ascii(" ") == [SPACE];
    assert response == response[..7] + [response[7]] + [response[8]] + response[9..12] + [response[12]]
                       + response[13..];
  }

  lemma {:induction false} LineIsStatus(response: bytes, version: byte, code: bytes, after: byte, rest: bytes)
    requires IsLineOf(response, version, code, after, rest)
    ensures IsStatusLine(response) && response[9..12] == code
  {
    hide AllDigits;
    assert Ascii("HTTP/1.") == PREFIX && Ascii(" ") == [SPACE];
    assert response[..7] == PREFIX && response[7] == version && response[8] == SPACE;
    assert response[9..12] == code && response[12] == after;
  }
}
