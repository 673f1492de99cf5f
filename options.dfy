/**
 * The ND option chain (RFC 4861 section 4.6): type-length-value records whose
 * length byte counts 8-byte units.  Every input handler of uip-nd6.c walks it
 * with the same loop: while the current offset lies inside the packet, a zero
 * length makes the handler discard the packet, and otherwise the offset
 * advances by length * 8.
 */
module NdOptions {
  import opened Wire

  /** One option: its type byte, its length in 8-byte units, the buffer index of its first byte. */
  datatype Opt = Opt(kind: byte, units: nat, at: nat)

  /** Why the walk ended: the packet ended, an option had length 0, or a header lay outside uip_buf. */
  datatype Stop = Completed | ZeroLength | OutOfBuffer

  datatype Chain = Chain(opts: seq<Opt>, stop: Stop)

  /** The next option offset, with an offset wide enough not to wrap. */
  function NextOffset(off: nat, units: byte): (r: nat)
    requires units >= 1
    ensures r >= off + 8
  {
    off + units * 8
  }

  /**
   * The options from `off` (relative to the end of the ICMPv6 header) to the
   * end of a packet of `len` bytes.
   */
  function Walk(b: seq<byte>, len: nat, off: nat): Chain
    decreases if len > off then len - off else 0
  {
    if BODY + off >= len then Chain([], Completed)
    else if BODY + off + 1 >= |b| then Chain([], OutOfBuffer)
    else if b[BODY + off + 1] == 0 then Chain([], ZeroLength)
    else
      var rest := Walk(b, len, NextOffset(off, b[BODY + off + 1]));
      Chain([Opt(b[BODY + off], b[BODY + off + 1], BODY + off)] + rest.opts, rest.stop)
  }

  /** Buffer index just after the last option walked. */
  function EndOf(c: Chain, off: nat): nat
  {
    if c.opts == [] then BODY + off
    else c.opts[|c.opts| - 1].at + 8 * c.opts[|c.opts| - 1].units
  }

  /**
   * The walk visits exactly the chain the length bytes describe: each option
   * starts where the previous one ends (offset + len * 8), every length is
   * nonzero, and every option starts inside the packet.
   */
  lemma {:induction false} WalkOptions(b: seq<byte>, len: nat, off: nat)
    ensures var c := Walk(b, len, off);
      && (|c.opts| > 0 ==> c.opts[0].at == BODY + off)
      && (forall i :: 0 <= i < |c.opts| ==>
            c.opts[i].at < len && c.opts[i].at + 1 < |b| && c.opts[i].units >= 1
            && b[c.opts[i].at] == c.opts[i].kind && b[c.opts[i].at + 1] == c.opts[i].units)
      && (forall i :: 0 <= i < |c.opts| - 1 ==> c.opts[i + 1].at == c.opts[i].at + 8 * c.opts[i].units)
    decreases if len > off then len - off else 0
  {
    if BODY + off < len && BODY + off + 1 < |b| && b[BODY + off + 1] != 0 {
      var next := NextOffset(off, b[BODY + off + 1]);
      WalkOptions(b, len, next);
      var rest := Walk(b, len, next);
      var head := Opt(b[BODY + off], b[BODY + off + 1], BODY + off);
      var c := Walk(b, len, off);
      assert c.opts == [head] + rest.opts;
      forall i | 0 <= i < |c.opts| - 1
        ensures c.opts[i + 1].at == c.opts[i].at + 8 * c.opts[i].units
      {
        if i > 0 {
          assert c.opts[i] == rest.opts[i - 1] && c.opts[i + 1] == rest.opts[i];
        }
      }
    }
  }

  /**
   * Why the walk stopped, stated at the index just after the last option: a
   * completed walk has reached the end of the packet; a zero-length stop saw
   * a length byte 0 inside the packet.
   */
  lemma {:induction false} WalkStop(b: seq<byte>, len: nat, off: nat)
    ensures var c := Walk(b, len, off);
      && (c.stop == Completed ==> EndOf(c, off) >= len)
      && (c.stop == ZeroLength ==> EndOf(c, off) < len && EndOf(c, off) + 1 < |b| && b[EndOf(c, off) + 1] == 0)
      && (c.stop == OutOfBuffer ==> EndOf(c, off) < len && EndOf(c, off) + 1 >= |b|)
    decreases if len > off then len - off else 0
  {
    if BODY + off < len && BODY + off + 1 < |b| && b[BODY + off + 1] != 0 {
      var next := NextOffset(off, b[BODY + off + 1]);
      WalkStop(b, len, next);
      var rest := Walk(b, len, next);
      var c := Walk(b, len, off);
      if rest.opts != [] {
        assert c.opts[|c.opts| - 1] == rest.opts[|rest.opts| - 1];
      }
      assert EndOf(c, off) == EndOf(rest, next);
    }
  }

  /** The walk reads nothing before the message body. */
  lemma {:induction false} WalkReadsBody(b: seq<byte>, b': seq<byte>, len: nat, off: nat)
    requires |b| == |b'| && BODY <= |b| && b[BODY..] == b'[BODY..]
    ensures Walk(b, len, off) == Walk(b', len, off)
    decreases if len > off then len - off else 0
  {
    if BODY + off < len && BODY + off + 1 < |b| {
      assert b[BODY + off] == b[BODY..][off] && b'[BODY + off] == b'[BODY..][off];
      assert b[BODY + off + 1] == b[BODY..][off + 1] && b'[BODY + off + 1] == b'[BODY..][off + 1];
      if b[BODY + off + 1] != 0 {
        WalkReadsBody(b, b', len, NextOffset(off, b[BODY + off + 1]));
      }
    }
  }

  /** Termination: each option consumes at least 8 bytes of the packet. */
  lemma {:induction false} WalkBounded(b: seq<byte>, len: nat, off: nat)
    requires BODY + off <= len
    ensures 8 * |Walk(b, len, off).opts| <= len - (BODY + off) + 7
    decreases len - off
  {
    if BODY + off < len && BODY + off + 1 < |b| && b[BODY + off + 1] != 0 {
      var next := NextOffset(off, b[BODY + off + 1]);
      if BODY + next <= len {
        WalkBounded(b, len, next);
      }
    }
  }

  /** The options walked from `off` end no earlier than where the walk starts. */
  lemma {:induction false} WalkEndsAfter(b: seq<byte>, len: nat, off: nat)
    ensures EndOf(Walk(b, len, off), off) >= BODY + off
    decreases if len > off then len - off else 0
  {
    if BODY + off < len && BODY + off + 1 < |b| && b[BODY + off + 1] != 0 {
      var next := NextOffset(off, b[BODY + off + 1]);
      WalkEndsAfter(b, len, next);
      var rest := Walk(b, len, next);
      var c := Walk(b, len, off);
      if rest.opts != [] {
        assert c.opts[|c.opts| - 1] == rest.opts[|rest.opts| - 1];
      }
      assert EndOf(c, off) == EndOf(rest, next);
    }
  }

  /** `nd6_opt_offset += (len << 3)` on the source's `uint8_t nd6_opt_offset` (uip-nd6.c:127, 260). */
  function NextOffsetAsWritten(off: byte, units: byte): (r: byte)
    ensures units >= 1 && off + units * 8 < 256 ==> r == NextOffset(off, units)
    ensures units == 32 ==> r == off
  {
    (off + units * 8) % 256
  }
}
