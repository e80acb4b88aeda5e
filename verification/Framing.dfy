/**
 The packet framing of mysql_proxy_api.cpp: an eight-byte start token, a little-endian length that
 counts the sixteen header bytes, and a payload; and the receive loop that finds packets in a byte
 stream arriving in arbitrary pieces. Whether a payload is accepted is a parameter: it stands for
 KnvNode::NewFromMessage succeeding.
 */
module Framing {
  import opened Bytes

  const TOKEN: seq<byte> := [0x40, 0x4D, 0x79, 0x50, 0x52, 0x4F, 0x58, 0x59]  // "@MyPROXY"
  const HEADER: nat := 16
  const LIMIT: nat := 524288000  // 500 MiB
  const CHUNK: nat := 65536

  type Judge = seq<byte> -> bool

  /** Aborted: a length below 16 makes the constructor of the payload string throw. */
  datatype Outcome = Accepted(payload: seq<byte>) | Aborted | Waiting(rest: seq<byte>)

  predicate StartsWithToken(s: seq<byte>) {
    |s| >= 8 && s[..8] == TOKEN
  }

  function FrameLength(s: seq<byte>): nat
    requires |s| >= HEADER
  {
    Le(s[8..16])
  }

  /**
   A scan of s from its start. ParsePacket looks at the limit only when the frame is not complete yet;
   with strict set, a frame over the limit is passed over in any case. Waiting holds what is kept.
   */
  function Scan(accepts: Judge, s: seq<byte>, strict: bool): Outcome
    decreases |s|
  {
    if |s| <= HEADER then Waiting(s)
    else if !StartsWithToken(s) then Scan(accepts, s[1..], strict)
    else
      var len := FrameLength(s);
      if len > LIMIT && (strict || len > |s|) then Scan(accepts, s[1..], strict)
      else if len > |s| then Waiting(s)
      else if len < HEADER then Aborted
      else if accepts(s[HEADER..len]) then Accepted(s[HEADER..len])
      else Scan(accepts, s[len..], strict)
  }

  /** What the whole stream means, however it arrives: every frame over the limit is passed over. */
  function ScanStream(accepts: Judge, s: seq<byte>): Outcome {
    Scan(accepts, s, true)
  }

  /** What may be left in the buffer between two receives. */
  predicate Kept(s: seq<byte>) {
    |s| <= HEADER || (StartsWithToken(s) && |s| < FrameLength(s) <= LIMIT)
  }

  lemma {:induction false} WaitingIsKept(accepts: Judge, s: seq<byte>)
    requires ScanStream(accepts, s).Waiting?
    ensures Kept(ScanStream(accepts, s).rest)
    decreases |s|
  {
    if |s| > HEADER {
      if !StartsWithToken(s) || FrameLength(s) > LIMIT {
        WaitingIsKept(accepts, s[1..]);
      } else if FrameLength(s) <= |s| {
        WaitingIsKept(accepts, s[FrameLength(s)..]);
      }
    }
  }

  lemma HeaderOfPrefix(s: seq<byte>, t: seq<byte>)
    requires |s| >= HEADER
    ensures StartsWithToken(s + t) == StartsWithToken(s)
    ensures FrameLength(s + t) == FrameLength(s)
  {
    assert (s + t)[..8] == s[..8];
    assert (s + t)[8..16] == s[8..16];
  }

  /** More bytes never change a decision, and a wait goes on from what was kept. */
  lemma {:induction false} ScanAppend(accepts: Judge, s: seq<byte>, t: seq<byte>)
    ensures ScanStream(accepts, s + t) ==
            if ScanStream(accepts, s).Waiting? then ScanStream(accepts, ScanStream(accepts, s).rest + t)
            else ScanStream(accepts, s)
    decreases |s|
  {
    if |s| > HEADER {
      HeaderOfPrefix(s, t);
      var len := FrameLength(s);
      if !StartsWithToken(s) || len > LIMIT {
        assert (s + t)[1..] == s[1..] + t;
        ScanAppend(accepts, s[1..], t);
      } else if HEADER <= len <= |s| {
        assert (s + t)[HEADER..len] == s[HEADER..len];
        assert (s + t)[len..] == s[len..] + t;
        ScanAppend(accepts, s[len..], t);
      }
    }
  }

  lemma {:induction false} ShortBufferIsStream(accepts: Judge, s: seq<byte>)
    requires |s| <= LIMIT
    ensures Scan(accepts, s, false) == ScanStream(accepts, s)
    decreases |s|
  {
    if |s| > HEADER {
      var len := FrameLength(s);
      if !StartsWithToken(s) || len > LIMIT {
        ShortBufferIsStream(accepts, s[1..]);
      } else if HEADER <= len <= |s| {
        ShortBufferIsStream(accepts, s[len..]);
      }
    }
  }

  /** After one receive the buffer holds no complete frame over the limit, so the late check is early enough. */
  lemma BufferIsStream(accepts: Judge, kept: seq<byte>, chunk: seq<byte>)
    requires Kept(kept) && |chunk| <= CHUNK
    ensures Scan(accepts, kept + chunk, false) == ScanStream(accepts, kept + chunk)
  {
    var s := kept + chunk;
    if |kept| <= HEADER {
      ShortBufferIsStream(accepts, s);
    } else {
      HeaderOfPrefix(kept, chunk);
      if FrameLength(s) <= |s| {
        ShortBufferIsStream(accepts, s[FrameLength(s)..]);
      }
    }
  }

  /** The bound on a receive matters: a buffer filled at once with a frame over the limit would have it accepted. */
  lemma LateCheckNeedsSmallChunks(accepts: Judge, body: seq<byte>)
    requires LIMIT < HEADER + |body| < U64 && accepts(body)
    ensures Scan(accepts, Frame(body), false) == Accepted(body)
    ensures ScanStream(accepts, Frame(body)) != Accepted(body)
  {
    assert Frame(body) == Frame(body) + [];
    FrameHeader(body, []);
    FrameIsDelivered(accepts, body, []);
  }

  // ----- resynchronisation -----

  /** The bytes SendRequest puts on the wire for a serialised request. */
  function Frame(body: seq<byte>): (s: seq<byte>)
    ensures |s| == HEADER + |body|
  {
    TOKEN + ToLe(HEADER + |body|, 8) + body
  }

  predicate TokenAt(s: seq<byte>, i: int) {
    0 <= i <= |s| - 8 && s[i..i + 8] == TOKEN
  }

  predicate ContainsToken(s: seq<byte>) {
    exists i :: 0 <= i <= |s| - 8 && TokenAt(s, i)
  }

  lemma FrameHeader(body: seq<byte>, t: seq<byte>)
    requires HEADER + |body| < U64
    ensures StartsWithToken(Frame(body) + t)
    ensures FrameLength(Frame(body) + t) == HEADER + |body|
    ensures (Frame(body) + t)[HEADER..HEADER + |body|] == body
    ensures (Frame(body) + t)[HEADER + |body|..] == t
  {
    var s := Frame(body) + t;
    assert s[..8] == TOKEN;
    assert s[8..16] == ToLe(HEADER + |body|, 8);
    Pow256Values();
    LeToLe(HEADER + |body|, 8);
  }

  /**
   A sent frame at the front of the stream is delivered exactly when the scanner accepts its payload,
   its length is within the limit, and it is not a bare header with nothing behind it.
   */
  lemma FrameIsDelivered(accepts: Judge, body: seq<byte>, t: seq<byte>)
    requires HEADER + |body| < U64
    ensures accepts(body) && HEADER + |body| <= LIMIT && |body| + |t| > 0 ==>
              ScanStream(accepts, Frame(body) + t) == Accepted(body)
    ensures ScanStream(accepts, Frame(body) + t) == Accepted(body) ==>
              accepts(body) && HEADER + |body| <= LIMIT && |body| + |t| > 0
  {
    var s := Frame(body) + t;
    FrameHeader(body, t);
    if ScanStream(accepts, s) == Accepted(body) {
      AcceptedIsJudged(accepts, s);
    }
  }

  lemma {:induction false} AcceptedIsJudged(accepts: Judge, s: seq<byte>)
    requires ScanStream(accepts, s).Accepted?
    ensures accepts(ScanStream(accepts, s).payload)
    ensures HEADER + |ScanStream(accepts, s).payload| <= LIMIT
    ensures |s| > HEADER
    decreases |s|
  {
    var len := FrameLength(s);
    if !StartsWithToken(s) || len > LIMIT {
      AcceptedIsJudged(accepts, s[1..]);
    } else if !accepts(s[HEADER..len]) {
      AcceptedIsJudged(accepts, s[len..]);
    }
  }

  /** No suffix of garbage completes a token with the start of a frame: '@' occurs in the token only once. */
  lemma NoTokenAcrossJoin(garbage: seq<byte>, body: seq<byte>, t: seq<byte>)
    requires garbage != [] && !ContainsToken(garbage)
    ensures !StartsWithToken(garbage + (Frame(body) + t))
  {
    var s := garbage + (Frame(body) + t);
    if |garbage| >= 8 {
      assert s[..8] == garbage[0..0 + 8];
      assert !TokenAt(garbage, 0);
    } else {
      var g := |garbage|;
      assert s[g] == TOKEN[0];
      assert s[..8][g] == s[g];
    }
  }

  /** Garbage without a token is skipped exactly, whatever follows the frame. */
  lemma {:induction false} Resynchronisation(accepts: Judge, garbage: seq<byte>, body: seq<byte>, t: seq<byte>)
    requires !ContainsToken(garbage)
    ensures ScanStream(accepts, garbage + (Frame(body) + t)) == ScanStream(accepts, Frame(body) + t)
    ensures accepts(body) && HEADER + |body| <= LIMIT && |body| + |t| > 0 ==>
              ScanStream(accepts, garbage + (Frame(body) + t)) == Accepted(body)
    decreases |garbage|
  {
    var s := garbage + (Frame(body) + t);
    if HEADER + |body| <= LIMIT {
      FrameIsDelivered(accepts, body, t);
    }
    if garbage == [] {
      assert s == Frame(body) + t;
    } else {
      NoTokenAcrossJoin(garbage, body, t);
      var g := garbage[1..];
      assert s[1..] == g + (Frame(body) + t);
      assert !ContainsToken(g) by {
        forall i | 0 <= i <= |g| - 8
          ensures !TokenAt(g, i)
        {
          assert g[i..i + 8] == garbage[i + 1..i + 1 + 8];
          assert !TokenAt(garbage, i + 1);
        }
      }
      Resynchronisation(accepts, g, body, t);
    }
  }

  // ----- the receive loop -----

  /** The decisions of ParsePacket, in terms of positions in the buffer: no token, so go on one byte later. */
  lemma NoTokenAt(accepts: Judge, s: seq<byte>, p: nat)
    requires p + HEADER < |s| && s[p..p + 8] != TOKEN
    ensures Scan(accepts, s[p..], false) == Scan(accepts, s[p + 1..], false)
  {
    assert s[p..][..8] == s[p..p + 8] && s[p..][1..] == s[p + 1..];
  }

  /** The length at a token does not fit the buffer. */
  lemma IncompleteAt(accepts: Judge, s: seq<byte>, p: nat, len: nat)
    requires p + HEADER < |s| && s[p..p + 8] == TOKEN && len == Le(s[p + 8..p + 16]) && p + len > |s|
    ensures Scan(accepts, s[p..], false) == if len > LIMIT then Scan(accepts, s[p + 1..], false) else Waiting(s[p..])
  {
    var here := s[p..];
    assert here[..8] == s[p..p + 8] && here[8..16] == s[p + 8..p + 16] && here[1..] == s[p + 1..];
  }

  /** A whole frame at a token. */
  lemma FrameAt(accepts: Judge, s: seq<byte>, p: nat, len: nat)
    requires p + HEADER < |s| && s[p..p + 8] == TOKEN && len == Le(s[p + 8..p + 16]) && p + len <= |s|
    ensures len < HEADER ==> Scan(accepts, s[p..], false) == Aborted
    ensures HEADER <= len ==>
              var payload := s[p + HEADER..p + len];
              Scan(accepts, s[p..], false) ==
              if accepts(payload) then Accepted(payload) else Scan(accepts, s[p + len..], false)
  {
    var here := s[p..];
    assert here[..8] == s[p..p + 8] && here[8..16] == s[p + 8..p + 16];
    if HEADER <= len {
      assert here[HEADER..len] == s[p + HEADER..p + len] && here[len..] == s[p + len..];
    }
  }

  /** The inner loop of ParsePacket: to the next token that is followed by a full header, or near the end. */
  method FindToken(ghost accepts: Judge, s: seq<byte>, from: nat) returns (packet: nat)
    requires from <= |s|
    ensures from <= packet <= |s|
    ensures packet + HEADER < |s| ==> s[packet..packet + 8] == TOKEN
    ensures Scan(accepts, s[from..], false) == Scan(accepts, s[packet..], false)
  {
    packet := from;
    while packet + HEADER < |s| && s[packet..packet + 8] != TOKEN
      invariant from <= packet <= |s|
      invariant Scan(accepts, s[from..], false) == Scan(accepts, s[packet..], false)
    {
      NoTokenAt(accepts, s, packet);
      packet := packet + 1;
    }
  }

  /** What ParsePacket does at one position: it stops with a result, or goes on further right. */
  datatype Turn = Stop(result: Outcome) | Go(to: nat)

  /** The body of ParsePacket's outer loop once the next token, or the end, was found. */
  method AtToken(accepts: Judge, s: seq<byte>, packet: nat) returns (turn: Turn)
    requires packet <= |s| && (packet + HEADER < |s| ==> s[packet..packet + 8] == TOKEN)
    ensures turn.Stop? ==> Scan(accepts, s[packet..], false) == turn.result
    ensures turn.Stop? && turn.result.Waiting? ==> turn.result.rest == s[packet..]
    ensures turn.Go? ==>
              packet < turn.to <= |s| && Scan(accepts, s[packet..], false) == Scan(accepts, s[turn.to..], false)
  {
    ghost var here := Scan(accepts, s[packet..], false);
    if packet + HEADER >= |s| {
      return Stop(Waiting(s[packet..]));
    }
    var packlen := Le(s[packet + 8..packet + 16]);
    if packet + packlen > |s| {
      IncompleteAt(accepts, s, packet, packlen);
      return if packlen > LIMIT then Go(packet + 1) else Stop(Waiting(s[packet..]));
    }
    FrameAt(accepts, s, packet, packlen);
    if packlen < HEADER {
      return Stop(Aborted);
    }
    var payload := s[packet + HEADER..packet + packlen];
    assert here == if accepts(payload) then Accepted(payload) else Scan(accepts, s[packet + packlen..], false);
    if accepts(payload) {
      return Stop(Accepted(payload));
    }
    return Go(packet + packlen);
  }

  class Receiver {
    var reqstr: seq<byte>

    constructor ()
      ensures reqstr == []
    {
      reqstr := [];
    }

    /** ParsePacket: moves a cursor over the buffer and trims what it passed. */
    method ParsePacket(accepts: Judge) returns (r: Outcome)
      modifies this
      ensures r == Scan(accepts, old(reqstr), false)
      ensures reqstr == if r.Waiting? then r.rest else old(reqstr)
    {
      var s, packet := reqstr, 0;
      ghost var outcome := Scan(accepts, s, false);
      while packet != |s|
        invariant 0 <= packet <= |s| && reqstr == s
        invariant outcome == Scan(accepts, s[packet..], false)
        decreases |s| - packet
      {
        packet := FindToken(accepts, s, packet);
        var turn := AtToken(accepts, s, packet);
        if turn.Stop? {
          if turn.result.Waiting? {
            reqstr := s[packet..];
          }
          return turn.result;
        }
        packet := turn.to;
      }
      reqstr := [];
      r := Waiting([]);
    }

    /**
     The receive loop of mysql_proxy_real_query: what it delivers depends on the stream alone, not on
     how recv cuts it. Waiting: the stream ended (timeout, error or shutdown) before a packet was accepted.
     */
    method ReceiveLoop(accepts: Judge, chunks: seq<seq<byte>>) returns (r: Outcome)
      requires reqstr == []
      requires forall c :: c in chunks ==> 1 <= |c| <= CHUNK
      modifies this
      ensures r == ScanStream(accepts, Concat(chunks))
    {
      var i := 0;
      r := Waiting([]);
      assert chunks[0..] == chunks && reqstr + Concat(chunks) == Concat(chunks);
      while i < |chunks|
        invariant 0 <= i <= |chunks|
        invariant r == Waiting(reqstr) && Kept(reqstr)
        invariant ScanStream(accepts, Concat(chunks)) == ScanStream(accepts, reqstr + Concat(chunks[i..]))
      {
        assert chunks[i] in chunks && chunks[i..][1..] == chunks[i + 1..];
        ghost var later := Concat(chunks[i + 1..]);
        assert reqstr + Concat(chunks[i..]) == (reqstr + chunks[i]) + later;
        BufferIsStream(accepts, reqstr, chunks[i]);
        ScanAppend(accepts, reqstr + chunks[i], later);
        reqstr := reqstr + chunks[i];
        ghost var all := reqstr;
        r := ParsePacket(accepts);
        if !r.Waiting? {
          return;
        }
        WaitingIsKept(accepts, all);
        i := i + 1;
      }
      KeptIsStable(accepts, reqstr);
      assert reqstr + Concat(chunks[i..]) == reqstr;
    }
  }

  lemma KeptIsStable(accepts: Judge, s: seq<byte>)
    requires Kept(s)
    ensures ScanStream(accepts, s) == Waiting(s)
  {
  }

  /** Framing in SendRequest: the token, then the body, then the length over the header gap. */
  method BuildFrame(body: seq<byte>) returns (rsp: array<byte>)
    requires HEADER + |body| <= INT_MAX
    ensures fresh(rsp) && rsp[..] == Frame(body)
  {
    rsp := new byte[HEADER + |body|];
    CopyInto(rsp, 0, TOKEN);
    assert rsp[..8] == TOKEN;
    CopyInto(rsp, HEADER, body);
    assert rsp[..8] == TOKEN && rsp[16..] == body;
    CopyInto(rsp, 8, ToLe(HEADER + |body|, 8));
  }

  method CopyInto(a: array<byte>, at: nat, bytes: seq<byte>)
    requires at + |bytes| <= a.Length
    modifies a
    ensures a[..] == old(a[..at]) + bytes + old(a[at + |bytes|..])
  {
    var i := 0;
    while i < |bytes|
      invariant 0 <= i <= |bytes|
      invariant forall k :: 0 <= k < i ==> a[at + k] == bytes[k]
      invariant forall k :: 0 <= k < a.Length && !(at <= k < at + i) ==> a[k] == old(a[k])
    {
      a[at + i] := bytes[i];
      i := i + 1;
    }
  }
}
