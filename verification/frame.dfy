/** struct frame of mtu.h: the size of a packet, what each layer adds to it, and
    the buffer and headroom sizes derived from that. */
module Frames {
  import opened Bits
  import opened Integers

  const TUN_MTU_MIN: int := 100
  const PAYLOAD_ALIGN: int := 4
  const SET_MTU_TUN: nat := 1
  const SET_MTU_UPPER_BOUND: nat := 2

  class Frame {
    var linkMtu: int
    var linkMtuDynamic: int
    var extraFrame: int
    var extraBuffer: int
    var extraTun: int
    var extraLink: int
    var alignFlags: nat
    var alignAdjust: int

    function TunLinkDelta(): int
      reads this
    {
      extraFrame + extraTun
    }

    function TunMtuSize(): int
      reads this
    {
      linkMtu - TunLinkDelta()
    }

    function PayloadSize(): int
      reads this
    {
      linkMtu - extraFrame
    }

    function PayloadSizeDynamic(): int
      reads this
    {
      linkMtuDynamic - extraFrame
    }

    function ExpandedSizeMin(): int
      reads this
    {
      TUN_MTU_MIN + TunLinkDelta()
    }

    function MaxRwSizeLink(): int
      reads this
    {
      linkMtu + extraLink
    }

    function HeadroomBase(): int
      reads this
    {
      TunLinkDelta() + extraBuffer + extraLink
    }

    function BufSize(): int
      reads this
    {
      TunMtuSize() + HeadroomBase() * 2
    }

    /** frame_headroom: the base rounded up so that the payload is aligned.  Masking
        with PAYLOAD_ALIGN-1 is the remainder modulo 4, also of a negative number in
        two's complement. */
    function Headroom(flagMask: nat): int
      reads this
    {
      var offset := HeadroomBase();
      var adjust := if And(flagMask, alignFlags) != 0 then alignAdjust else 0;
      offset + (PAYLOAD_ALIGN * 0x100_0000 - (offset + adjust)) % PAYLOAD_ALIGN
    }

    /** The additions are non-negative. */
    predicate Sane()
      reads this
    {
      extraFrame >= 0 && extraBuffer >= 0 && extraTun >= 0 && extraLink >= 0
    }

    /** What every finished frame satisfies. */
    predicate Usable()
      reads this
    {
      && Sane() && extraBuffer >= PAYLOAD_ALIGN
      && TunMtuSize() >= TUN_MTU_MIN
      && ExpandedSizeMin() <= linkMtuDynamic <= linkMtu
    }

    /** Fails when the program would stop with "MTU is too small". */
    method Finalize(linkMtuDefined: bool, newLinkMtu: int, tunMtuDefined: bool, tunMtu: int) returns (ok: bool)
      requires Sane() && linkMtuDefined != tunMtuDefined
      modifies this
      ensures linkMtu == if tunMtuDefined then tunMtu + old(TunLinkDelta()) else newLinkMtu
      ensures ok <==> TunMtuSize() >= TUN_MTU_MIN
      ensures ok ==> Usable() && linkMtuDynamic == linkMtu && extraBuffer == old(extraBuffer) + PAYLOAD_ALIGN
      ensures extraFrame == old(extraFrame) && extraTun == old(extraTun) && extraLink == old(extraLink)
      ensures alignFlags == old(alignFlags) && alignAdjust == old(alignAdjust)
    {
      if tunMtuDefined {
        linkMtu := tunMtu + TunLinkDelta();
      } else {
        linkMtu := newLinkMtu;
      }
      if TunMtuSize() < TUN_MTU_MIN {
        return false;
      }
      linkMtuDynamic := linkMtu;
      extraBuffer := extraBuffer + PAYLOAD_ALIGN;
      return true;
    }

    /** Setting the dynamic MTU clamps it between the smallest packet and link_mtu,
        and with the upper-bound flag never raises it. */
    method SetMtuDynamic(mtu: int, flags: nat)
      requires Usable() && mtu >= 0
      modifies this`linkMtuDynamic
      ensures Usable()
      ensures And(flags, SET_MTU_UPPER_BOUND) != 0 ==> linkMtuDynamic <= old(linkMtuDynamic)
      ensures var wanted := if And(flags, SET_MTU_TUN) != 0 then mtu + TunLinkDelta() else mtu;
              And(flags, SET_MTU_UPPER_BOUND) == 0 || wanted < old(linkMtuDynamic) ==>
                linkMtuDynamic == if wanted < ExpandedSizeMin() then ExpandedSizeMin()
                                  else if wanted > linkMtu then linkMtu else wanted
      ensures var wanted := if And(flags, SET_MTU_TUN) != 0 then mtu + TunLinkDelta() else mtu;
              And(flags, SET_MTU_UPPER_BOUND) != 0 && wanted >= old(linkMtuDynamic) ==>
                linkMtuDynamic == old(linkMtuDynamic)
    {
      var mtu := mtu;
      if And(flags, SET_MTU_TUN) != 0 {
        mtu := mtu + TunLinkDelta();
      }
      if And(flags, SET_MTU_UPPER_BOUND) == 0 || mtu < linkMtuDynamic {
        linkMtuDynamic := ConstrainInt(mtu, ExpandedSizeMin(), linkMtu);
      }
    }

    /** Moving src's extra_frame bytes to extra_tun changes no buffer size and no
        headroom; the frame stays usable exactly when it had that much to move. */
    method SubtractExtra(src: Frame)
      requires Usable() && src != this && src.extraFrame >= 0
      modifies this`extraFrame, this`extraTun
      ensures extraFrame == old(extraFrame) - src.extraFrame && extraTun == old(extraTun) + src.extraFrame
      ensures BufSize() == old(BufSize()) && forall mask :: Headroom(mask) == old(Headroom(mask))
      ensures PayloadSize() - PayloadSizeDynamic() == old(PayloadSize() - PayloadSizeDynamic())
      ensures Usable() <==> src.extraFrame <= old(extraFrame)
    {
      extraFrame := extraFrame - src.extraFrame;
      extraTun := extraTun + src.extraFrame;
    }
  }

  /** The start of the payload, plus the adjustment asked for, is a multiple of four. */
  lemma HeadroomAligns(frame: Frame, flagMask: nat)
    ensures var adjust := if And(flagMask, frame.alignFlags) != 0 then frame.alignAdjust else 0;
            (frame.Headroom(flagMask) + adjust) % PAYLOAD_ALIGN == 0
    ensures frame.HeadroomBase() <= frame.Headroom(flagMask) < frame.HeadroomBase() + PAYLOAD_ALIGN
  {
    hide And;
  }

  /** Why no ASSERT of the packet path can fire: behind the headroom a buffer of
      BUF_SIZE has room for any payload and for anything read from the link, before
      it for every header; and what is cut up is always cut into 100 bytes or more. */
  lemma BuffersSuffice(frame: Frame, flagMask: nat)
    requires frame.Usable()
    ensures PAYLOAD_ALIGN <= frame.Headroom(flagMask)
    ensures frame.Headroom(flagMask) + frame.PayloadSize() <= frame.BufSize()
    ensures frame.Headroom(flagMask) + frame.MaxRwSizeLink() <= frame.BufSize()
    ensures TUN_MTU_MIN <= frame.PayloadSizeDynamic() <= frame.PayloadSize()
  {
    HeadroomAligns(frame, flagMask);
  }
}
