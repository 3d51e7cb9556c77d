/** Packets of the GDB remote serial protocol, as the debugger stub sends and receives
    them. The other end is a sequence of bytes to be read; what is written is returned. */
module GdbPackets {
  import opened HexCodec
  import opened Sequences

  const START: Byte := '$' as int
  const END: Byte := '#' as int
  const GOOD: Byte := '+' as int
  const BAD: Byte := '-' as int
  const COLON: Byte := ':' as int

  function SumTo(p: seq<Byte>, n: nat): nat
    requires n <= |p|
  {
    if n == 0 then 0 else SumTo(p, n - 1) + p[n - 1]
  }

  function Sum(p: seq<Byte>): nat {
    SumTo(p, |p|)
  }

  function Checksum(p: seq<Byte>, n: nat): nat
    requires n <= |p|
  {
    SumTo(p, n) % 256
  }

  lemma ChecksumStep(p: seq<Byte>, n: nat)
    requires n < |p|
    ensures Checksum(p, n + 1) == (Checksum(p, n) + p[n]) % 256
  {
  }

  function Frame(p: seq<Byte>): seq<Byte> {
    var csum := Checksum(p, |p|);
    [START] + p + [END, IntToDigit(csum / 16), IntToDigit(csum)]
  }

  lemma {:induction false} SumIsTotal(p: seq<Byte>, n: nat)
    requires n <= |p|
    ensures SumTo(p, n) == Total(p[..n])
  {
    if n == 0 {
    } else {
      SumIsTotal(p, n - 1);
      assert p[..n] == p[..n - 1] + [p[n - 1]];
      TotalConcat(p[..n - 1], [p[n - 1]]);
    }
  }

  /** A frame letter by letter: the payload between the two marks, and the two digits of the sum of its bytes modulo 256. */
  lemma FrameSpelled(p: seq<Byte>)
    ensures var sum := Total(p) % 256;
            Frame(p) == ['$' as int] + p + ['#' as int, LowerDigit(sum / 16), LowerDigit(sum % 16)]
  {
    hide LowerDigit, IntToDigit;
    SumIsTotal(p, |p|);
    assert p[..|p|] == p;
    var sum := Total(p) % 256;
    DigitTable(sum / 16);
    DigitTable(sum);
  }

  /** The answer that a debugger expects. */
  lemma OkFrame(p: seq<Byte>)
    requires p == ['O' as int, 'K' as int]
    ensures Frame(p) == ['$' as int, 'O' as int, 'K' as int, '#' as int, '9' as int, 'a' as int]
  {
    FrameSpelled(p);
    TotalConcat([p[0]], [p[1]]);
    assert p == [p[0]] + [p[1]] && Total(p) == p[0] + p[1] == 154;
    TableValues(9);
    TableValues(10);
    hide LowerDigit, Frame;
  }

  function Resent(f: seq<Byte>, n: nat): seq<Byte> {
    if n == 0 then [] else Resent(f, n - 1) + f
  }

  // ---------- sending ----------

  /** The characters before the terminating zero. */
  ghost function Payload(text: seq<Byte>): (p: seq<Byte>)
    requires 0 in text
    ensures |p| < |text| && text[|p|] == 0 && p == text[..|p|] && 0 !in p
  {
    if text[0] == 0 then [] else [text[0]] + Payload(text[1..])
  }

  method SendOnce(text: seq<Byte>) returns (out: seq<Byte>)
    requires 0 in text
    ensures out == Frame(Payload(text))
  {
    ghost var p := Payload(text);
    out := [START];
    var i, csum: int := 0, 0;
    hide Payload, Checksum;
    while text[i] != 0
      invariant 0 <= i <= |p| && out == [START] + p[..i] && csum == Checksum(p, i)
      decreases |p| - i
    {
      assert p[i] == text[i];
      out := out + [text[i]];
      ChecksumStep(p, i);
      csum := (csum + text[i]) % 256;
      i := i + 1;
    }
    assert i == |p| && p[..i] == p;
    out := out + [END];
    out := out + [IntToDigit(csum / 16)];
    out := out + [IntToDigit(csum)];
  }

  /** How many replies in a row ask for the packet again. */
  function Refusals(acks: seq<Byte>): (n: nat)
    ensures n <= |acks|
  {
    if acks == [] || acks[0] % 128 != BAD then 0 else 1 + Refusals(acks[1..])
  }

  /** Sends until the other end no longer refuses; `done` is false if it has not answered. */
  method Send(text: seq<Byte>, acks: seq<Byte>) returns (out: seq<Byte>, used: nat, done: bool)
    requires 0 in text
    ensures done <==> Refusals(acks) < |acks|
    ensures used == Refusals(acks) + if done then 1 else 0
    ensures out == Resent(Frame(Payload(text)), Refusals(acks) + 1)
  {
    out, used, done := [], 0, false;
    while used <= |acks|
      invariant !done && used <= |acks| && Refusals(acks) == used + Refusals(acks[used..])
      invariant out == Resent(Frame(Payload(text)), used)
      decreases |acks| - used
    {
      var frame := SendOnce(text);
      out := out + frame;
      if used == |acks| {
        return;
      }
      var c := acks[used] % 128;
      used := used + 1;
      if c != BAD {
        return out, used, true;
      }
      assert acks[used - 1..][1..] == acks[used..];
    }
  }

  // ---------- receiving ----------

  /** Either a packet of this length is in the buffer, or the input has run out, or the length
      became negative and the copy that follows has no meaning, or the terminating zero was due just
      behind the end of the buffer. */
  datatype Outcome = Packet(len: nat) | Hungry | Undefined | PastEnd

  datatype Reception = Reception(outcome: Outcome, rest: seq<Byte>, replies: seq<Byte>, buffer: seq<Byte>)

  function Reply(c: Byte, r: Reception): Reception {
    r.(replies := [c] + r.replies)
  }

  /** The input after the first packet start. */
  function Begin(input: seq<Byte>): (rest: seq<Byte>)
    requires START in input
    ensures |rest| < |input|
  {
    if input[0] == START then input[1..] else Begin(input[1..])
  }

  /** The data up to the packet end, but at most `room` characters and the one that did not fit. */
  datatype Scanned = Scanned(data: seq<Byte>, ended: bool, rest: seq<Byte>)

  function Scan(input: seq<Byte>, room: nat): (s: Scanned)
    ensures |s.data| <= room && |s.rest| <= |input|
  {
    if input == [] then Scanned([], false, [])
    else if input[0] == END || room == 0 then Scanned([], true, input[1..])
    else
      var s := Scan(input[1..], room - 1);
      s.(data := [input[0] % 128] + s.data)
  }

  function Stored(buffer: seq<Byte>, data: seq<Byte>): (b: seq<Byte>)
    requires |data| <= |buffer|
    ensures |b| == |buffer|
  {
    data + buffer[|data|..]
  }

  predicate Matches(data: seq<Byte>, hi: Byte, lo: Byte) {
    Sum(data) % 256 - DigitToInt(hi) * 16 - DigitToInt(lo) == 0
  }

  /** What a checked packet becomes: one with a sequence number in front loses it. */
  function Delivered(buffer: seq<Byte>, len: nat, rest: seq<Byte>): Reception
    requires |buffer| >= 3 && len <= |buffer|
  {
    if buffer[2] != COLON then Reception(Packet(len), rest, [GOOD], buffer)
    else if len < 3 then Reception(Undefined, rest, [GOOD, buffer[0], buffer[1]], buffer)
    else Reception(Packet(len - 3), rest, [GOOD, buffer[0], buffer[1]], Stored(buffer, buffer[3..len]))
  }

  /** One try at a packet either refuses it, or settles the matter. */
  datatype Attempt = Refused(rest: seq<Byte>, buffer: seq<Byte>) | Settled(reception: Reception)

  function Once(input: seq<Byte>, buffer: seq<Byte>, maxlen: nat): (a: Attempt)
    requires |buffer| >= maxlen && |buffer| >= 3
    ensures a.Refused? ==> |a.rest| < |input| && |a.buffer| == |buffer|
  {
    if START !in input then Settled(Reception(Hungry, [], [], buffer))
    else
      var s := Scan(Begin(input), maxlen);
      if !s.ended then Settled(Reception(Hungry, [], [], Stored(buffer, s.data)))
      else if |s.data| == |buffer| then Settled(Reception(PastEnd, s.rest, [], Stored(buffer, s.data)))
      else
        var stored := Stored(buffer, s.data + [0]);
        if |s.data| >= maxlen then Refused(s.rest, stored)
        else if |s.rest| < 2 then Settled(Reception(Hungry, [], [], stored))
        else if Matches(s.data, s.rest[0], s.rest[1]) then Settled(Delivered(stored, |s.data|, s.rest[2..]))
        else Refused(s.rest[2..], stored)
  }

  function Receive(input: seq<Byte>, buffer: seq<Byte>, maxlen: nat): Reception
    requires |buffer| >= maxlen && |buffer| >= 3
    decreases |input|
  {
    match Once(input, buffer, maxlen)
    case Refused(rest, stored) => Reply(BAD, Receive(rest, stored, maxlen))
    case Settled(r) => r
  }

  method FindStart(input: seq<Byte>, from: nat) returns (found: bool, pos: nat)
    requires from <= |input|
    ensures found <==> START in input[from..]
    ensures if found then from < pos <= |input| && input[pos..] == Begin(input[from..]) else pos == |input|
  {
    pos := from;
    while pos < |input|
      invariant from <= pos <= |input|
      invariant START in input[from..] <==> START in input[pos..]
      invariant START in input[pos..] ==> Begin(input[from..]) == Begin(input[pos..])
    {
      pos := pos + 1;
      assert input[pos - 1..][1..] == input[pos..];
      if input[pos - 1] == START {
        return true, pos;
      }
    }
    found := false;
  }

  /** The data from `len` on and what follows it are still to be read, from `pos` on. */
  ghost predicate Ahead(s: Scanned, len: nat, input: seq<Byte>, pos: nat, room: nat) {
    && len <= |s.data| && pos <= |input|
    && Scan(input[pos..], room) == s.(data := s.data[len..])
  }

  lemma AheadStep(s: Scanned, len: nat, input: seq<Byte>, pos: nat, room: nat)
    requires Ahead(s, len, input, pos, room) && pos < |input| && room > 0 && input[pos] != END
    ensures len < |s.data| && Ahead(s, len + 1, input, pos + 1, room - 1) && s.data[len] == input[pos] % 128
  {
    assert input[pos..][1..] == input[pos + 1..];
    var t := Scan(input[pos + 1..], room - 1);
    assert s.data[len..] == [input[pos] % 128] + t.data;
    assert s.data[len + 1..] == s.data[len..][1..] == t.data;
  }

  lemma AheadEnd(s: Scanned, len: nat, input: seq<Byte>, pos: nat, room: nat)
    requires Ahead(s, len, input, pos, room) && (pos < |input| ==> input[pos] == END || room == 0)
    ensures len == |s.data| && s.ended == (pos < |input|) && s.rest == if s.ended then input[pos + 1..] else []
  {
    assert pos < |input| ==> input[pos..][1..] == input[pos + 1..];
  }

  method ReadLoop(bp: array<Byte>, maxlen: nat, input: seq<Byte>, from: nat, ghost s: Scanned)
    returns (len: nat, csum: nat, pos: nat)
    requires from <= |input| && |s.data| <= maxlen <= bp.Length && Ahead(s, 0, input, from, maxlen)
    modifies bp
    ensures from <= pos <= |input| && len <= maxlen && Ahead(s, len, input, pos, maxlen - len)
    ensures pos < |input| ==> input[pos] == END || len == maxlen
    ensures len <= |s.data| && csum == SumTo(s.data, len)
    ensures forall k :: 0 <= k < bp.Length ==> bp[k] == if k < len then s.data[k] else old(bp[k])
  {
    len, csum, pos := 0, 0, from;
    hide Ahead;
    while pos < |input| && input[pos] != END && len < maxlen
      invariant from <= pos <= |input| && len <= maxlen && len <= |s.data| && Ahead(s, len, input, pos, maxlen - len)
      invariant csum == SumTo(s.data, len)
      invariant forall k :: 0 <= k < bp.Length ==> bp[k] == if k < len then s.data[k] else old(bp[k])
      decreases |input| - pos
    {
      AheadStep(s, len, input, pos, maxlen - len);
      var c := input[pos] % 128;
      pos := pos + 1;
      csum := csum + c;
      bp[len] := c;
      len := len + 1;
    }
  }

  lemma StoredHere(now: seq<Byte>, was: seq<Byte>, data: seq<Byte>)
    requires |data| <= |now| == |was| && forall k :: 0 <= k < |now| ==> now[k] == if k < |data| then data[k] else was[k]
    ensures now == Stored(was, data)
  {
  }

  method ReadData(bp: array<Byte>, maxlen: nat, input: seq<Byte>, from: nat)
    returns (ended: bool, len: nat, csum: nat, pos: nat)
    requires from <= |input| && bp.Length >= maxlen
    modifies bp
    ensures var s := Scan(input[from..], maxlen);
            && from <= pos <= |input| && ended == s.ended && input[pos..] == s.rest
            && len == |s.data| && csum == Sum(s.data) && bp[..] == Stored(old(bp[..]), s.data)
  {
    ghost var s := Scan(input[from..], maxlen);
    assert Ahead(s, 0, input, from, maxlen);
    hide Scan, SumTo, Ahead;
    len, csum, pos := ReadLoop(bp, maxlen, input, from, s);
    AheadEnd(s, len, input, pos, maxlen - len);
    StoredHere(bp[..], old(bp[..]), s.data);
    hide Stored;
    ended := pos < |input|;
    if ended {
      pos := pos + 1;
    }
  }

  /** Moves the data after a sequence number to the front, copying from the front on: source and target may overlap. */
  method Shift(bp: array<Byte>, len: nat)
    requires 3 <= len <= bp.Length
    modifies bp
    ensures bp[..] == Stored(old(bp[..]), old(bp[3..len]))
  {
    var k := 0;
    while k < len - 3
      invariant 0 <= k <= len - 3
      invariant forall j :: 0 <= j < bp.Length ==> bp[j] == if j < k then old(bp[3 + j]) else old(bp[j])
    {
      bp[k] := bp[3 + k];
      k := k + 1;
    }
  }

  /** The packet is complete: check it, acknowledge it, and take off a sequence number. */
  method Finish(bp: array<Byte>, len: nat, csum: nat, hi: Byte, lo: Byte, ghost rest: seq<Byte>)
    returns (ok: bool, outcome: Outcome, replies: seq<Byte>)
    requires len < bp.Length && bp.Length >= 3 && csum == Sum(bp[..len])
    modifies bp
    ensures ok == Matches(old(bp[..len]), hi, lo)
    ensures ok ==> Delivered(old(bp[..]), len, rest) == Reception(outcome, rest, replies, bp[..])
    ensures !ok ==> replies == [BAD] && bp[..] == old(bp[..])
  {
    outcome := Packet(len);
    ok := csum % 256 - DigitToInt(hi) * 16 - DigitToInt(lo) == 0;
    if !ok {
      replies := [BAD];
      return;
    }
    replies := [GOOD];
    if bp[2] == COLON {
      replies := replies + [bp[0], bp[1]];
      if len < 3 {
        outcome := Undefined;
      } else {
        Shift(bp, len);
        outcome := Packet(len - 3);
      }
    }
  }

  /** One try at a packet: `again` if it had to be refused. */
  method Try(bp: array<Byte>, maxlen: nat, input: seq<Byte>, from: nat)
    returns (again: bool, outcome: Outcome, pos: nat, replies: seq<Byte>)
    requires from <= |input| && bp.Length >= maxlen && bp.Length >= 3
    modifies bp
    ensures from <= pos <= |input| && (again ==> from < pos && replies == [BAD])
    ensures Once(input[from..], old(bp[..]), maxlen) ==
            if again then Refused(input[pos..], bp[..]) else Settled(Reception(outcome, input[pos..], replies, bp[..]))
  {
    hide Scan, Begin, Sum, Matches, Delivered;
    var found, ended, len, csum;
    again, outcome, replies := false, Hungry, [];
    found, pos := FindStart(input, from);
    if !found {
      return;
    }
    ended, len, csum, pos := ReadData(bp, maxlen, input, pos);
    if !ended {
      pos := |input|;
      return;
    }
    if len == bp.Length {
      outcome := PastEnd;
      return;
    }
    ghost var data := Scan(Begin(input[from..]), maxlen).data;
    bp[len] := 0;
    assert bp[..] == Stored(old(bp[..]), data + [0]) && bp[..len] == data;
    if len >= maxlen {
      again, replies := true, [BAD];
    } else if |input| - pos < 2 {
      pos := |input|;
    } else {
      assert input[pos..][2..] == input[pos + 2..];
      pos := pos + 2;
      var ok;
      ok, outcome, replies := Finish(bp, len, csum, input[pos - 2], input[pos - 1], input[pos..]);
      again := !ok;
    }
  }

  function Prepend(replies: seq<Byte>, r: Reception): Reception {
    r.(replies := replies + r.replies)
  }

  /** One more round of the loop, with what was replied before it. */
  lemma NextRound(input: seq<Byte>, buffer: seq<Byte>, maxlen: nat, replies: seq<Byte>)
    requires |buffer| >= maxlen && |buffer| >= 3
    ensures Prepend(replies, Receive(input, buffer, maxlen)) ==
            match Once(input, buffer, maxlen)
            case Refused(rest, stored) => Prepend(replies + [BAD], Receive(rest, stored, maxlen))
            case Settled(r) => Prepend(replies, r)
  {
    hide Once;
    match Once(input, buffer, maxlen)
    case Refused(rest, stored) =>
      var r := Receive(rest, stored, maxlen);
      assert replies + ([BAD] + r.replies) == replies + [BAD] + r.replies;
    case Settled(_) =>
  }

  method Recv(bp: array<Byte>, maxlen: nat, input: seq<Byte>) returns (outcome: Outcome, pos: nat, replies: seq<Byte>)
    requires bp.Length >= maxlen && bp.Length >= 3
    modifies bp
    ensures pos <= |input|
    ensures Receive(input, old(bp[..]), maxlen) == Reception(outcome, input[pos..], replies, bp[..])
  {
    outcome, pos, replies := Hungry, 0, [];
    assert input[0..] == input && Prepend([], Receive(input, bp[..], maxlen)) == Receive(input, bp[..], maxlen);
    hide Receive, Once;
    var again := true;
    while again
      invariant pos <= |input|
      invariant Receive(input, old(bp[..]), maxlen) ==
                if again then Prepend(replies, Receive(input[pos..], bp[..], maxlen))
                else Reception(outcome, input[pos..], replies, bp[..])
      decreases if again then |input| - pos + 1 else 0
    {
      var more;
      NextRound(input[pos..], bp[..], maxlen, replies);
      again, outcome, pos, more := Try(bp, maxlen, input, pos);
      replies := replies + more;
    }
  }

  // ---------- what gets through ----------

  /** Seven bits of every byte. */
  function Masked(q: seq<Byte>): (m: seq<Byte>)
    ensures |m| == |q|
  {
    if q == [] then [] else [q[0] % 128] + Masked(q[1..])
  }

  lemma {:induction false} MaskedSame(q: seq<Byte>)
    requires forall i :: 0 <= i < |q| ==> q[i] < 128
    ensures Masked(q) == q
  {
    if q == [] {
    } else {
      MaskedSame(q[1..]);
    }
  }

  lemma {:induction false} BeginSkips(noise: seq<Byte>, tail: seq<Byte>)
    requires START !in noise
    ensures START in noise + [START] + tail && Begin(noise + [START] + tail) == tail
  {
    var all := noise + [START] + tail;
    assert all[|noise|] == START;
    if noise == [] {
    } else {
      BeginSkips(noise[1..], tail);
      assert all[1..] == noise[1..] + [START] + tail;
    }
  }

  lemma {:induction false} ScanReads(q: seq<Byte>, tail: seq<Byte>, room: nat)
    requires END !in q && |q| <= room
    ensures Scan(q + [END] + tail, room) == Scanned(Masked(q), true, tail)
  {
    var all := q + [END] + tail;
    if q == [] {
      assert all == [END] + tail;
    } else {
      ScanReads(q[1..], tail, room - 1);
      assert all[1..] == q[1..] + [END] + tail;
    }
  }

  /** A packet as it arrives, possibly mangled on the way. */
  datatype Wire = Wire(data: seq<Byte>, hi: Byte, lo: Byte) {
    function Bytes(): seq<Byte> {
      [START] + data + [END, hi, lo]
    }

    ghost predicate Fits(maxlen: nat) {
      END !in data && |data| < maxlen
    }
  }

  lemma WireRead(noise: seq<Byte>, w: Wire, rest: seq<Byte>, buffer: seq<Byte>, maxlen: nat)
    requires START !in noise && w.Fits(maxlen) && |buffer| >= maxlen && |buffer| >= 3
    ensures var stored := Stored(buffer, Masked(w.data) + [0]);
            Once(noise + w.Bytes() + rest, buffer, maxlen) ==
            if Matches(Masked(w.data), w.hi, w.lo) then Settled(Delivered(stored, |w.data|, rest)) else Refused(rest, stored)
  {
    var tail := w.data + [END] + ([w.hi, w.lo] + rest);
    assert noise + w.Bytes() + rest == noise + [START] + tail;
    BeginSkips(noise, tail);
    ScanReads(w.data, [w.hi, w.lo] + rest, maxlen);
    assert ([w.hi, w.lo] + rest)[2..] == rest;
  }

  /** What the checksum test lets pass besides the right digits: a wrong second digit, for sums that
      end in the digit f. */
  lemma ChecksumTest(data: seq<Byte>, hi: Byte, lo: Byte)
    ensures Matches(data, hi, lo) <==>
            && IsHexDigit(hi)
            && Sum(data) % 256 == 16 * DigitToInt(hi) + if IsHexDigit(lo) then DigitToInt(lo) else -1
  {
  }

  lemma FrameMatches(p: seq<Byte>)
    ensures var csum := Sum(p) % 256; Matches(p, IntToDigit(csum / 16), IntToDigit(csum))
  {
    var csum := Sum(p) % 256;
    DigitRoundTrip(csum / 16, 0);
    DigitRoundTrip(csum, 0);
  }

  /** A payload that `send` can carry and the receiver has room for. */
  ghost predicate Carries(p: seq<Byte>, maxlen: nat) {
    (forall i :: 0 <= i < |p| ==> p[i] < 128) && END !in p && |p| < maxlen
  }

  /** The third character in the buffer, which decides about a sequence number: a packet shorter than
      two characters leaves an old one there. */
  function Third(buffer: seq<Byte>, p: seq<Byte>): Byte
    requires |buffer| >= 3
  {
    if |p| >= 3 then p[2] else if |p| == 2 then 0 else buffer[2]
  }

  /** After any noise, a sent frame is taken whole and acknowledged, exactly when the third
      character in the buffer is not a colon. */
  lemma FrameReceived(noise: seq<Byte>, p: seq<Byte>, rest: seq<Byte>, buffer: seq<Byte>, maxlen: nat)
    requires START !in noise && Carries(p, maxlen) && |buffer| >= maxlen && |buffer| >= 3
    ensures var r := Receive(noise + Frame(p) + rest, buffer, maxlen);
            && (Third(buffer, p) != COLON <==> r.outcome == Packet(|p|))
            && (Third(buffer, p) != COLON ==> p + [0] <= r.buffer && r.replies == [GOOD])
            && (Third(buffer, p) == COLON && |p| >= 3 ==>
                  r.outcome == Packet(|p| - 3) && p[3..] <= r.buffer && r.replies == [GOOD, p[0], p[1]])
            && (r.outcome == Undefined <==> |p| < 2 && buffer[2] == COLON)
            && r.rest == rest
  {
    var csum := Sum(p) % 256;
    var w := Wire(p, IntToDigit(csum / 16), IntToDigit(csum));
    assert w.Bytes() == Frame(p);
    MaskedSame(p);
    FrameMatches(p);
    WireRead(noise, w, rest, buffer, maxlen);
    var stored := Stored(buffer, p + [0]);
    assert stored[2] == Third(buffer, p) && stored[..|p|] == p;
    if |p| >= 3 {
      assert stored[3..|p|] == p[3..];
    }
  }

  // ---------- mangled packets are sent again ----------

  function Stream(ws: seq<Wire>): seq<Byte> {
    if ws == [] then [] else ws[0].Bytes() + Stream(ws[1..])
  }

  ghost predicate AllWrong(ws: seq<Wire>, maxlen: nat) {
    forall i :: 0 <= i < |ws| ==> ws[i].Fits(maxlen) && !Matches(Masked(ws[i].data), ws[i].hi, ws[i].lo)
  }

  /** The buffer after these refused packets. */
  ghost function Leftover(buffer: seq<Byte>, ws: seq<Wire>, maxlen: nat): (b: seq<Byte>)
    requires |buffer| >= maxlen && AllWrong(ws, maxlen)
    ensures |b| == |buffer|
    decreases |ws|
  {
    if ws == [] then buffer else Leftover(Stored(buffer, Masked(ws[0].data) + [0]), ws[1..], maxlen)
  }

  lemma OneRefused(w: Wire, tail: seq<Byte>, buffer: seq<Byte>, maxlen: nat)
    requires |buffer| >= maxlen && |buffer| >= 3 && w.Fits(maxlen) && !Matches(Masked(w.data), w.hi, w.lo)
    ensures Receive(w.Bytes() + tail, buffer, maxlen) == Reply(BAD, Receive(tail, Stored(buffer, Masked(w.data) + [0]), maxlen))
  {
    assert w.Bytes() + tail == [] + w.Bytes() + tail;
    WireRead([], w, tail, buffer, maxlen);
    hide Once, Matches, Masked, Stored, Wire.Bytes;
  }

  /** Packets with a wrong checksum are each refused once, and then forgotten but for the buffer. */
  lemma {:induction false} RefusedAll(ws: seq<Wire>, tail: seq<Byte>, buffer: seq<Byte>, maxlen: nat)
    requires |buffer| >= maxlen && |buffer| >= 3 && AllWrong(ws, maxlen)
    ensures Receive(Stream(ws) + tail, buffer, maxlen) ==
            Prepend(Copies(BAD, |ws|), Receive(tail, Leftover(buffer, ws, maxlen), maxlen))
    decreases |ws|
  {
    hide Receive, Once;
    if ws == [] {
      assert Stream(ws) + tail == tail;
    } else {
      var w, stored := ws[0], Stored(buffer, Masked(ws[0].data) + [0]);
      assert Stream(ws) + tail == w.Bytes() + (Stream(ws[1..]) + tail);
      OneRefused(w, Stream(ws[1..]) + tail, buffer, maxlen);
      RefusedAll(ws[1..], tail, stored, maxlen);
      var r := Receive(tail, Leftover(buffer, ws, maxlen), maxlen);
      assert [BAD] + (Copies(BAD, |ws| - 1) + r.replies) == Copies(BAD, |ws|) + r.replies;
    }
  }

  lemma {:induction false} RefusalsCounted(n: nat)
    ensures Refusals(Copies(BAD, n) + [GOOD]) == n < |Copies(BAD, n) + [GOOD]|
  {
    if n == 0 {
    } else {
      RefusalsCounted(n - 1);
      assert (Copies(BAD, n) + [GOOD])[1..] == Copies(BAD, n - 1) + [GOOD];
    }
  }

  /** Any number of packets with a wrong checksum, and then a good one: the good one arrives, and the
      sender, seeing the replies, stops after exactly one packet more than were refused. */
  lemma Retransmission(ws: seq<Wire>, p: seq<Byte>, rest: seq<Byte>, buffer: seq<Byte>, maxlen: nat)
    requires |buffer| >= maxlen && |buffer| >= 3 && Carries(p, maxlen)
    requires AllWrong(ws, maxlen) && Third(Leftover(buffer, ws, maxlen), p) != COLON
    ensures var r := Receive(Stream(ws) + (Frame(p) + rest), buffer, maxlen);
            && r.outcome == Packet(|p|) && p + [0] <= r.buffer && r.rest == rest
            && Refusals(r.replies) == |ws| && |r.replies| == |ws| + 1
  {
    hide Receive, Once, Frame, Stream, Leftover, AllWrong, Matches;
    RefusedAll(ws, Frame(p) + rest, buffer, maxlen);
    assert [] + Frame(p) + rest == Frame(p) + rest;
    FrameReceived([], p, rest, Leftover(buffer, ws, maxlen), maxlen);
    RefusalsCounted(|ws|);
  }

  // ---------- the end of the buffer ----------

  /** Where the first end mark is. */
  function EndAt(b: seq<Byte>): (n: nat)
    ensures n <= |b| && END !in b[..n] && (n < |b| ==> b[n] == END)
  {
    if b == [] || b[0] == END then 0
    else
      var n := EndAt(b[1..]);
      assert b[..n + 1] == [b[0]] + b[1..][..n];
      1 + n
  }

  /** Behind packets that are refused for their checksum comes one with `maxlen` or more characters
      before its end mark. */
  predicate Overlong(input: seq<Byte>, maxlen: nat)
    decreases |input|
  {
    && START in input
    && var b := Begin(input);
       var n := EndAt(b);
       if n >= maxlen then |b| > maxlen
       else n + 2 < |b| && !Matches(Masked(b[..n]), b[n + 1], b[n + 2]) && Overlong(b[n + 3..], maxlen)
  }

  /** Without an end mark the scan goes on until the room or the input is used up. */
  lemma {:induction false} ScanFills(b: seq<Byte>, room: nat)
    requires END !in b[..if |b| < room then |b| else room]
    ensures |b| >= room ==> |Scan(b, room).data| == room
    ensures Scan(b, room).ended <==> |b| > room
  {
    if b == [] || room == 0 {
    } else {
      var m := if |b| < room then |b| else room;
      assert b[..m] == [b[0]] + b[1..][..m - 1];
      ScanFills(b[1..], room - 1);
    }
  }

  lemma {:induction false} ScanFull(b: seq<Byte>, room: nat)
    requires |b| > room && END !in b[..room]
    ensures Scan(b, room) == Scanned(Masked(b[..room]), true, b[room + 1..])
  {
    if room == 0 {
      assert b[..room] == [];
    } else {
      assert b[..room] == [b[0]] + b[1..][..room - 1];
      ScanFull(b[1..], room - 1);
      assert b[..room][1..] == b[1..][..room - 1];
    }
  }

  /** One try in full: without a start mark, without an end mark, or without two characters behind it, it waits; a
      packet that is too long is refused with one character more, or goes past the end; any other is delivered or
      refused as its checksum says. */
  lemma OnceExactly(input: seq<Byte>, buffer: seq<Byte>, maxlen: nat)
    requires |buffer| >= maxlen && |buffer| >= 3
    ensures var a := Once(input, buffer, maxlen);
            if START !in input then a.Settled? && a.reception.outcome == Hungry
            else
              var b := Begin(input);
              var n := EndAt(b);
              if n < maxlen && n + 2 < |b| then
                var stored := Stored(buffer, Masked(b[..n]) + [0]);
                a == if Matches(Masked(b[..n]), b[n + 1], b[n + 2]) then Settled(Delivered(stored, n, b[n + 3..]))
                     else Refused(b[n + 3..], stored)
              else if n < maxlen || |b| <= maxlen then a.Settled? && a.reception.outcome == Hungry
              else if |buffer| == maxlen then a.Settled? && a.reception.outcome == PastEnd
              else a == Refused(b[maxlen + 1..], Stored(buffer, Masked(b[..maxlen]) + [0]))
  {
    hide Matches, Masked, Delivered, Scan, Begin, EndAt;
    if START in input {
      var b := Begin(input);
      var n := EndAt(b);
      if n < maxlen && n < |b| {
        assert b == b[..n] + [END] + b[n + 1..];
        ScanReads(b[..n], b[n + 1..], maxlen);
        assert n + 2 < |b| ==> b[n + 1..][2..] == b[n + 3..];
      } else if |b| <= maxlen {
        assert b[..|b|] == b[..n];
        ScanFills(b, maxlen);
      } else {
        assert b[..maxlen] == b[..n][..maxlen];
        ScanFull(b, maxlen);
      }
    }
  }

  /** The replies on the wire. */
  lemma RepliesSpelled(w: Wire, rest: seq<Byte>, buffer: seq<Byte>, maxlen: nat)
    requires |buffer| >= maxlen && |buffer| >= 3 && w.Fits(maxlen)
    ensures var r := Receive(w.Bytes() + rest, buffer, maxlen);
            r.replies != [] && r.replies[0] == if Matches(Masked(w.data), w.hi, w.lo) then '+' as int else '-' as int
  {
    if Matches(Masked(w.data), w.hi, w.lo) {
      assert w.Bytes() + rest == [] + w.Bytes() + rest;
      WireRead([], w, rest, buffer, maxlen);
      hide Once, Matches, Masked, Stored, Wire.Bytes;
    } else {
      hide Receive, Once;
      OneRefused(w, rest, buffer, maxlen);
    }
  }

  /** The sender counts minus signs, whatever their eighth bit. */
  lemma {:induction false} RefusalsSpelled(acks: seq<Byte>, n: nat)
    requires n < |acks| && (forall i :: 0 <= i < n ==> acks[i] == '-' as int || acks[i] == '-' as int + 128)
    requires acks[n] != '-' as int && acks[n] != '-' as int + 128
    ensures Refusals(acks) == n
  {
    if n == 0 {
    } else {
      RefusalsSpelled(acks[1..], n - 1);
    }
  }

  /** The terminating zero is due behind the end of the buffer if and only if `maxlen` is the whole
      buffer and the loop comes to a packet that long. */
  lemma {:induction false} PastEndExactly(input: seq<Byte>, buffer: seq<Byte>, maxlen: nat)
    requires |buffer| >= maxlen && |buffer| >= 3
    ensures Receive(input, buffer, maxlen).outcome == PastEnd <==> |buffer| == maxlen && Overlong(input, maxlen)
    decreases |input|
  {
    OnceExactly(input, buffer, maxlen);
    hide Once, Matches, Masked, Stored, Delivered, Begin, EndAt;
    var a := Once(input, buffer, maxlen);
    if a.Refused? {
      PastEndExactly(a.rest, a.buffer, maxlen);
    } else if START in input && EndAt(Begin(input)) < maxlen && EndAt(Begin(input)) + 2 < |Begin(input)| {
      DeliveredInside(input, buffer, maxlen);
    }
  }

  /** A packet that is delivered does not go past the end. */
  lemma DeliveredInside(input: seq<Byte>, buffer: seq<Byte>, maxlen: nat)
    requires |buffer| >= maxlen && |buffer| >= 3 && START in input
    requires var b := Begin(input); EndAt(b) < maxlen && EndAt(b) + 2 < |b|
    ensures Once(input, buffer, maxlen).Settled? ==> Once(input, buffer, maxlen).reception.outcome != PastEnd
  {
    OnceExactly(input, buffer, maxlen);
    hide Once, Matches, Masked, Begin, EndAt;
  }

  /** The shortest such packet, for every size of the buffer. */
  lemma FullPacket(buffer: seq<Byte>, c: Byte)
    requires |buffer| >= 3 && c != END
    ensures Receive([START] + Copies(c, |buffer|) + [END], buffer, |buffer|).outcome == PastEnd
  {
    var q := Copies(c, |buffer|);
    var input := [START] + q + [END];
    assert input == [] + [START] + (q + [END]);
    BeginSkips([], q + [END]);
    EndBehind(q);
    hide Receive, Begin, EndAt, Matches, Masked;
    PastEndExactly(input, buffer, |buffer|);
  }

  lemma {:induction false} EndBehind(q: seq<Byte>)
    requires END !in q
    ensures EndAt(q + [END]) == |q|
  {
    if q == [] {
      assert q + [END] == [END];
    } else {
      assert (q + [END])[1..] == q[1..] + [END];
      EndBehind(q[1..]);
    }
  }

  lemma {:induction false} SumUpdate(p: seq<Byte>, i: nat, c: Byte, n: nat)
    requires i < |p| && n <= |p|
    ensures SumTo(p[i := c], n) == SumTo(p, n) + if i < n then c - p[i] else 0
  {
    if n == 0 {
    } else {
      SumUpdate(p, i, c, n - 1);
    }
  }

  /** The frame of `p` with the character at `i` replaced on the way. */
  function Mangled(p: seq<Byte>, i: nat, c: Byte): seq<Byte>
    requires i < |p|
  {
    var csum := Checksum(p, |p|);
    [START] + p[i := c] + [END, IntToDigit(csum / 16), IntToDigit(csum)]
  }

  /** Two characters that follow an end mark put in the place of character `i`: they are taken for the checksum. */
  function TakenForChecksum(p: seq<Byte>, i: nat): (tail: seq<Byte>)
    requires i < |p|
    ensures |tail| >= 3
  {
    var csum := Checksum(p, |p|);
    p[i + 1..] + [END, IntToDigit(csum / 16), IntToDigit(csum)]
  }

  /** A character replaced by an end mark: the packet ends there, and goes through exactly when the two characters
      behind happen to be the checksum of what came before. */
  lemma EndMarkInside(p: seq<Byte>, i: nat, noise: seq<Byte>, rest: seq<Byte>, buffer: seq<Byte>, maxlen: nat)
    requires START !in noise && Carries(p, maxlen) && i < |p| && |buffer| >= maxlen && |buffer| >= 3
    ensures var tail := TakenForChecksum(p, i);
            var stored := Stored(buffer, p[..i] + [0]);
            Once(noise + Mangled(p, i, END) + rest, buffer, maxlen) ==
            if Matches(p[..i], tail[0], tail[1]) then Settled(Delivered(stored, i, tail[2..] + rest))
            else Refused(tail[2..] + rest, stored)
  {
    var tail := TakenForChecksum(p, i);
    var w := Wire(p[..i], tail[0], tail[1]);
    assert p[i := END] == p[..i] + [END] + p[i + 1..];
    assert Mangled(p, i, END) == [START] + p[..i] + [END] + tail;
    assert tail == [tail[0], tail[1]] + tail[2..];
    assert noise + Mangled(p, i, END) + rest == noise + w.Bytes() + (tail[2..] + rest);
    MaskedSame(p[..i]);
    WireRead(noise, w, tail[2..] + rest, buffer, maxlen);
  }

  lemma WrongCharacter(p: seq<Byte>, i: nat, c: Byte)
    requires (forall k :: 0 <= k < |p| ==> p[k] < 128) && i < |p| && c % 128 != p[i]
    ensures var csum := Checksum(p, |p|); !Matches(Masked(p[i := c]), IntToDigit(csum / 16), IntToDigit(csum))
  {
    hide SumTo, IntToDigit, DigitToInt;
    MaskedUpdate(p, i, c);
    MaskedSame(p);
    SumUpdate(p, i, c % 128, |p|);
    FrameMatches(p);
    SumsDiffer(Sum(p), c % 128 - p[i]);
  }

  lemma {:induction false} MaskedUpdate(p: seq<Byte>, i: nat, c: Byte)
    requires i < |p|
    ensures Masked(p[i := c]) == Masked(p)[i := c % 128]
  {
    if i == 0 {
      assert p[i := c][1..] == p[1..];
    } else {
      assert p[i := c][1..] == p[1..][i - 1 := c];
      MaskedUpdate(p[1..], i - 1, c);
    }
  }

  /** One changed character is noticed, with one exception: it has become an end mark, and the two characters behind
      it happen to be the checksum of what came before. */
  lemma OneErrorNoticed(p: seq<Byte>, i: nat, c: Byte, noise: seq<Byte>, rest: seq<Byte>, buffer: seq<Byte>, maxlen: nat)
    requires START !in noise && Carries(p, maxlen) && i < |p| && |buffer| >= maxlen && |buffer| >= 3 && c % 128 != p[i]
    ensures Once(noise + Mangled(p, i, c) + rest, buffer, maxlen).Refused? <==>
            !(c == END && Matches(p[..i], TakenForChecksum(p, i)[0], TakenForChecksum(p, i)[1]))
  {
    if c == END {
      EndMarkInside(p, i, noise, rest, buffer, maxlen);
    } else {
      var csum := Checksum(p, |p|);
      var w := Wire(p[i := c], IntToDigit(csum / 16), IntToDigit(csum));
      assert w.Bytes() == Mangled(p, i, c);
      WrongCharacter(p, i, c);
      WireRead(noise, w, rest, buffer, maxlen);
    }
  }

  /** Packets that differ in eighth bits only are treated alike. */
  lemma MaskedAlike(noise: seq<Byte>, w: Wire, w': Wire, rest: seq<Byte>, buffer: seq<Byte>, maxlen: nat)
    requires START !in noise && w.Fits(maxlen) && w'.Fits(maxlen) && |buffer| >= maxlen && |buffer| >= 3
    requires Masked(w.data) == Masked(w'.data) && w.hi == w'.hi && w.lo == w'.lo && |w.data| == |w'.data|
    ensures Once(noise + w.Bytes() + rest, buffer, maxlen) == Once(noise + w'.Bytes() + rest, buffer, maxlen)
  {
    hide Once, Matches, Masked, Delivered, Wire.Bytes;
    WireRead(noise, w, rest, buffer, maxlen);
    WireRead(noise, w', rest, buffer, maxlen);
  }

  /** The eighth bit of a character is not looked at. */
  lemma EighthBitIgnored(p: seq<Byte>, i: nat, c: Byte, noise: seq<Byte>, rest: seq<Byte>, buffer: seq<Byte>, maxlen: nat)
    requires START !in noise && Carries(p, maxlen) && i < |p| && |buffer| >= maxlen && |buffer| >= 3 && c % 128 == p[i]
    ensures Once(noise + Mangled(p, i, c) + rest, buffer, maxlen) == Once(noise + Frame(p) + rest, buffer, maxlen)
  {
    hide Once, Matches, Checksum, IntToDigit, Masked;
    var csum := Checksum(p, |p|);
    var w, w' := Wire(p[i := c], IntToDigit(csum / 16), IntToDigit(csum)), Wire(p, IntToDigit(csum / 16), IntToDigit(csum));
    assert w.Bytes() == Mangled(p, i, c) && w'.Bytes() == Frame(p);
    MaskedUpdate(p, i, c);
    MaskedSame(p);
    assert p[i := p[i]] == p;
    MaskedAlike(noise, w, w', rest, buffer, maxlen);
  }

  lemma EndMarkReceived(p: seq<Byte>, i: nat, buffer: seq<Byte>, maxlen: nat)
    requires Carries(p, maxlen) && i < |p| && |buffer| >= maxlen && |buffer| >= 3
    requires Matches(p[..i], TakenForChecksum(p, i)[0], TakenForChecksum(p, i)[1])
    ensures Receive(Mangled(p, i, END), buffer, maxlen) ==
            Delivered(Stored(buffer, p[..i] + [0]), i, TakenForChecksum(p, i)[2..] + [])
  {
    hide Once, Mangled, Delivered;
    EndMarkInside(p, i, [], [], buffer, maxlen);
    assert [] + Mangled(p, i, END) + [] == Mangled(p, i, END);
  }

  lemma LetterA()
    ensures Matches(['a' as int], '6' as int, '1' as int)
  {
    assert SumTo(['a' as int], 1) == SumTo(['a' as int], 0) + 'a' as int;
  }

  /** The payload "a?61" whose second character became an end mark is taken for the packet "a". */
  lemma UnnoticedError(buffer: seq<Byte>)
    requires |buffer| >= 5 && buffer[2] != COLON
    ensures Receive(Mangled(['a' as int, '?' as int, '6' as int, '1' as int], 1, END), buffer, 5).outcome == Packet(1)
  {
    var p := ['a' as int, '?' as int, '6' as int, '1' as int];
    LetterA();
    hide SumTo, Receive, Mangled, IntToDigit, Matches, Checksum;
    assert p[..1] == ['a' as int];
    EndMarkReceived(p, 1, buffer, 5);
  }

  lemma SumsDiffer(sum: nat, d: int)
    requires -256 < d < 256 && d != 0
    ensures (sum + d) % 256 != sum % 256
  {
  }

  /** A packet whose data after the sequence number are shorter than three characters leaves the colon in the buffer,
      and the next packet, if shorter than two characters, ends without meaning. */
  lemma ColonStays(p: seq<Byte>, q: seq<Byte>, buffer: seq<Byte>, maxlen: nat)
    requires Carries(p, maxlen) && 3 <= |p| <= 5 && p[2] == COLON && Carries(q, maxlen) && |q| < 2
    requires |buffer| >= maxlen && |buffer| >= 3
    ensures var first := Receive(Frame(p), buffer, maxlen);
            && first.outcome == Packet(|p| - 3) && |first.buffer| == |buffer|
            && Receive(Frame(q), first.buffer, maxlen).outcome == Undefined
  {
    FrameSettles(p, buffer, maxlen);
    var first := Receive(Frame(p), buffer, maxlen);
    var stored := Stored(buffer, p + [0]);
    assert stored[2] == COLON;
    assert first.buffer[2] == COLON;
    FrameReceived([], q, [], first.buffer, maxlen);
    assert [] + Frame(q) + [] == Frame(q);
  }

  lemma FrameSettles(p: seq<Byte>, buffer: seq<Byte>, maxlen: nat)
    requires Carries(p, maxlen) && |buffer| >= maxlen && |buffer| >= 3
    ensures Receive(Frame(p), buffer, maxlen) == Delivered(Stored(buffer, p + [0]), |p|, [])
  {
    var csum := Sum(p) % 256;
    var w := Wire(p, IntToDigit(csum / 16), IntToDigit(csum));
    assert [] + w.Bytes() + [] == Frame(p);
    MaskedSame(p);
    FrameMatches(p);
    WireRead([], w, [], buffer, maxlen);
  }

  /** The packets "ab:g" and "g", one after the other. */
  lemma ColonStaysFor(buffer: seq<Byte>)
    requires |buffer| >= 5
    ensures var first := Receive(Frame(['a' as int, 'b' as int, ':' as int, 'g' as int]), buffer, 5);
            |first.buffer| == |buffer| && Receive(Frame(['g' as int]), first.buffer, 5).outcome == Undefined
  {
    ColonStays(['a' as int, 'b' as int, COLON, 'g' as int], ['g' as int], buffer, 5);
  }
}
