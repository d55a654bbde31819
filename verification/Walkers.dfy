/**
  The two kernel-message walkers that trigger re-assertion. Each reads a message length and type at an
  offset, and advances; each must stay inside the buffer, stop on anything malformed, and report a
  deletion exactly when the list of messages in the buffer holds one. `little` is the host's byte order.
 */
module Walkers {
  import opened Bytes

  // ----- host-endian integers ------------------------------------------------------------------

  function U16(little: bool, a: Byte, b: Byte): nat {
    if little then a + 256 * b else b + 256 * a
  }

  function U32(little: bool, a: Byte, b: Byte, c: Byte, d: Byte): nat {
    if little then U16(true, a, b) + 65536 * U16(true, c, d) else U16(false, c, d) + 65536 * U16(false, a, b)
  }

  function U16Octets(little: bool, n: nat): (r: Octets)
    requires n < 65536
    ensures |r| == 2 && U16(little, r[0], r[1]) == n
  {
    if little then [n % 256, n / 256] else [n / 256, n % 256]
  }

  function U32Octets(little: bool, n: nat): (r: Octets)
    requires n < 0x1_0000_0000
    ensures |r| == 4 && U32(little, r[0], r[1], r[2], r[3]) == n
  {
    if little then U16Octets(true, n % 65536) + U16Octets(true, n / 65536)
    else U16Octets(false, n / 65536) + U16Octets(false, n % 65536)
  }

  // ----- netlink -------------------------------------------------------------------------------

  const NLMSG_HDRLEN := 16

  const RTM_DELADDR := 21
  const RTM_DELROUTE := 25
  const RTM_DELRULE := 33

  predicate IsNetlinkDeletion(kind: nat) { kind == RTM_DELRULE || kind == RTM_DELROUTE || kind == RTM_DELADDR }

  function Align(len: nat): (r: nat)
    ensures len <= r < len + 4 && r % 4 == 0
  {
    (len + 3) / 4 * 4
  }

  function NlLen(little: bool, s: Octets): nat
    requires |s| >= NLMSG_HDRLEN
  {
    U32(little, s[0], s[1], s[2], s[3])
  }

  function NlKind(little: bool, s: Octets): nat
    requires |s| >= NLMSG_HDRLEN
  {
    U16(little, s[4], s[5])
  }

  /** What the walk answers for the rest of a buffer. */
  predicate NlScan(little: bool, s: Octets)
    decreases |s|
  {
    |s| >= NLMSG_HDRLEN && NLMSG_HDRLEN <= NlLen(little, s) <= |s| &&
    (IsNetlinkDeletion(NlKind(little, s)) ||
     (Align(NlLen(little, s)) <= |s| && NlScan(little, s[Align(NlLen(little, s))..])))
  }

  method NetlinkMentionsDeletion(little: bool, buffer: array<Byte>) returns (found: bool)
    ensures found == NlScan(little, buffer[..])
  {
    var offset := 0;
    while offset + NLMSG_HDRLEN <= buffer.Length
      invariant 0 <= offset
      invariant NlScan(little, buffer[..]) == (offset <= buffer.Length && NlScan(little, buffer[offset..]))
    {
      var len := U32(little, buffer[offset], buffer[offset + 1], buffer[offset + 2], buffer[offset + 3]);
      var kind := U16(little, buffer[offset + 4], buffer[offset + 5]);
      if len < NLMSG_HDRLEN || offset + len > buffer.Length {
        return false;
      }
      if IsNetlinkDeletion(kind) {
        return true;
      }
      assert offset + Align(len) <= buffer.Length ==> buffer[offset..][Align(len)..] == buffer[offset + Align(len)..];
      offset := offset + Align(len);
    }
    found := false;
  }

  /** `rest` is the header after the type, then the payload; `pad` fills up to the alignment. */
  datatype NlMsg = NlMsg(kind: nat, rest: Octets, pad: Octets)

  predicate NlWellFormed(m: NlMsg) {
    && m.kind < 65536 && 10 <= |m.rest| && 6 + |m.rest| < 0x1_0000_0000
    && |m.pad| == Align(6 + |m.rest|) - (6 + |m.rest|)
  }

  function NlBare(little: bool, m: NlMsg): Octets
    requires NlWellFormed(m)
  {
    U32Octets(little, 6 + |m.rest|) + U16Octets(little, m.kind) + m.rest
  }

  function NlEncode(little: bool, msgs: seq<NlMsg>): Octets
    requires forall m :: m in msgs ==> NlWellFormed(m)
  {
    if msgs == [] then [] else NlBare(little, msgs[0]) + msgs[0].pad + NlEncode(little, msgs[1..])
  }

  lemma NlHead(little: bool, m: NlMsg, tail: Octets)
    requires NlWellFormed(m)
    ensures var s := NlBare(little, m) + tail;
            && |NlBare(little, m)| == 6 + |m.rest| && |s| >= NLMSG_HDRLEN
            && NlLen(little, s) == 6 + |m.rest| && NlKind(little, s) == m.kind
  {
  }

  lemma NlStep(little: bool, m: NlMsg, more: Octets)
    requires NlWellFormed(m)
    ensures NlScan(little, NlBare(little, m) + m.pad + more) <==> m.kind in {33, 25, 21} || NlScan(little, more)
  {
  }

  /**
    Over any well-formed messages followed by anything at all, the walk reports a deletion exactly when
    one of the messages is one (a rule, a route or an address deleted: types 33, 25 and 21) or the rest, read on its
    own, mentions one.
   */
  lemma {:induction false} NetlinkExact(little: bool, msgs: seq<NlMsg>, tail: Octets)
    requires forall m :: m in msgs ==> NlWellFormed(m)
    ensures NlScan(little, NlEncode(little, msgs) + tail) <==>
            (exists m :: m in msgs && m.kind in {33, 25, 21}) || NlScan(little, tail)
    decreases |msgs|
  {
    hide NlScan, NlBare, NlWellFormed;
    if msgs == [] {
      assert NlEncode(little, msgs) + tail == tail;
    } else {
      var m, rest := msgs[0], NlEncode(little, msgs[1..]);
      assert msgs == [m] + msgs[1..] && m in msgs;
      assert NlEncode(little, msgs) + tail == NlBare(little, m) + m.pad + (rest + tail);
      NlStep(little, m, rest + tail);
      NetlinkExact(little, msgs[1..], tail);
    }
  }

  /** The kernel may leave the last message unpadded; it is seen all the same. */
  lemma NetlinkLastUnpadded(little: bool, msgs: seq<NlMsg>, last: NlMsg)
    requires NlWellFormed(last) && forall m :: m in msgs ==> NlWellFormed(m)
    ensures NlScan(little, NlEncode(little, msgs) + NlBare(little, last)) <==>
            exists m :: m in msgs + [last] && m.kind in {33, 25, 21}
  {
    NetlinkExact(little, msgs, NlBare(little, last));
    NlHead(little, last, []);
    assert NlBare(little, last) + [] == NlBare(little, last);
    var s := NlBare(little, last);
    if Align(NlLen(little, s)) <= |s| {
      assert s[Align(NlLen(little, s))..] == [];
    }
    assert last in msgs + [last];
  }

  // ----- PF_ROUTE ------------------------------------------------------------------------------

  const RT_MSGHDR_PREFIX := 4
  const RTM_VERSION: Byte := 5
  const RTM_DELETE: Byte := 2
  const RTM_DELADDR_BSD: Byte := 13

  predicate IsRouteDeletion(kind: Byte) { kind == RTM_DELETE || kind == RTM_DELADDR_BSD }

  predicate RtScan(little: bool, s: Octets)
    decreases |s|
  {
    |s| >= RT_MSGHDR_PREFIX &&
    var len := U16(little, s[0], s[1]);
    && RT_MSGHDR_PREFIX <= len <= |s| && s[2] == RTM_VERSION
    && (IsRouteDeletion(s[3]) || RtScan(little, s[len..]))
  }

  method RouteMentionsDeletion(little: bool, buffer: array<Byte>) returns (found: bool)
    ensures found == RtScan(little, buffer[..])
  {
    var offset := 0;
    assert buffer[0..] == buffer[..];
    while offset + RT_MSGHDR_PREFIX <= buffer.Length
      invariant 0 <= offset <= buffer.Length
      invariant RtScan(little, buffer[..]) == RtScan(little, buffer[offset..])
    {
      var len := U16(little, buffer[offset], buffer[offset + 1]);
      var version, kind := buffer[offset + 2], buffer[offset + 3];
      if len < RT_MSGHDR_PREFIX || offset + len > buffer.Length {
        return false;
      }
      if version != RTM_VERSION {
        return false;
      }
      if IsRouteDeletion(kind) {
        return true;
      }
      assert buffer[offset..][len..] == buffer[offset + len..];
      offset := offset + len;
    }
    found := false;
  }

  datatype RtMsg = RtMsg(kind: Byte, rest: Octets)

  predicate RtWellFormed(m: RtMsg) { 4 + |m.rest| < 65536 }

  function RtEncode(little: bool, msgs: seq<RtMsg>): Octets
    requires forall m :: m in msgs ==> RtWellFormed(m)
  {
    if msgs == [] then []
    else
      assert RtWellFormed(msgs[0]);
      U16Octets(little, 4 + |msgs[0].rest|) + [5, msgs[0].kind] + msgs[0].rest + RtEncode(little, msgs[1..])
  }

  /** The routing-socket counterpart: exact lengths, no padding, one version, deletions of types 2 and 13. */
  lemma {:induction false} RouteExact(little: bool, msgs: seq<RtMsg>, tail: Octets)
    requires forall m :: m in msgs ==> RtWellFormed(m)
    ensures RtScan(little, RtEncode(little, msgs) + tail) <==>
            (exists m :: m in msgs && m.kind in {2, 13}) || RtScan(little, tail)
    decreases |msgs|
  {
    if msgs == [] {
      assert RtEncode(little, msgs) + tail == tail;
    } else {
      var m, more := msgs[0], RtEncode(little, msgs[1..]) + tail;
      assert msgs == [m] + msgs[1..] && m in msgs;
      var l := U16Octets(little, 4 + |m.rest|);
      var s := RtEncode(little, msgs) + tail;
      assert s == l + [RTM_VERSION, m.kind] + m.rest + more;
      assert s[0] == l[0] && s[1] == l[1] && s[2] == RTM_VERSION && s[3] == m.kind;
      assert s[4 + |m.rest|..] == more;
      RouteExact(little, msgs[1..], tail);
    }
  }
}
