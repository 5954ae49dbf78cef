/** The control endpoint: the loop that fills packet memory byte by byte, and the transmit callback that goes on
    where the last packet stopped. */
module UsbControlObject {
  import opened Arithmetic
  import opened UsbDescriptors

  class UsbControl {
    const packet: array<nat>
    var txPending: bool
    var txCount: nat
    var restartByte: int
    var transactionLength: int

    ghost predicate Valid() { packet.Length == CTRL_TX_SIZE / 2 }

    /** What the endpoint is about to transmit. */
    ghost function OnWire(): seq<nat>
      requires Valid() && txCount <= CTRL_TX_SIZE
      reads this, packet
    {
      PacketBytes(packet[..], txCount)
    }

    constructor ()
      ensures Valid() && fresh(packet) && !txPending && restartByte == -1
    {
      packet := new nat[CTRL_TX_SIZE / 2](_ => 0);
      txPending, txCount, restartByte, transactionLength := false, 0, -1, -1;
    }

    /** One byte into packet memory: the first of a pair waits for the second. */
    method PutByte(at: nat, val: nat, b: Byte, ghost sent: seq<Byte>) returns (left: nat)
      requires Valid() && at == |sent| < CTRL_TX_SIZE && Packed(packet[..], val, sent)
      modifies packet
      ensures Packed(packet[..], left, sent + [b])
    {
      PackByte(packet[..], val, sent, b);
      if at % 2 == 1 {
        packet[at / 2] := Pair(val, b);
        left := 0;
      } else {
        left := val + b;
      }
    }

    method SendDescriptors(d: seq<seq<Byte>>, restart: nat, maxLength: nat) returns (next: int)
      requires Valid() && Descriptors(d) && maxLength <= CTRL_TX_SIZE && restart <= |Flat(d)|
      requires maxLength > 0 || restart == 0
      modifies this`txPending, this`txCount, packet
      ensures txPending
      ensures old(txPending) ==> next == -1 && txCount == old(txCount) && packet[..] == old(packet[..])
      ensures !old(txPending) ==>
        && next == Resume(Flat(d), restart, maxLength)
        && txCount <= CTRL_TX_SIZE && OnWire() == Stretch(Flat(d), restart, maxLength)
    {
      if txPending {
        return -1;
      }
      hide Flat, Packed, PacketBytes, Reading;
      ghost var all := Flat(d);
      var descriptorIdx, bytesToSend, totalBytesSent := 0, 0, 0;
      var at: nat, remaining: nat := 0, 0;
      var val: nat := 0;
      txPending := true;
      NothingPacked(packet[..]);
      assert all[restart..restart + 0] == [];
      ReadingStarts(d);
      while (descriptorIdx < |d| || remaining > 0) && bytesToSend < maxLength
        modifies packet
        invariant Reading(d, descriptorIdx, at, remaining, totalBytesSent)
        invariant bytesToSend == (if totalBytesSent > restart then totalBytesSent - restart else 0) <= maxLength
        invariant totalBytesSent <= |all|
        invariant Packed(packet[..], val, all[restart..restart + bytesToSend])
        decreases |all| - totalBytesSent
      {
        if remaining == 0 {
          OpenNext(d, descriptorIdx, at, totalBytesSent);
          remaining := d[descriptorIdx][0];
          at := 0;
          descriptorIdx := descriptorIdx + 1;
        }
        ReadByte(d, descriptorIdx, at, remaining, totalBytesSent);
        var b := d[descriptorIdx - 1][at];
        if totalBytesSent >= restart {
          ghost var sent := all[restart..restart + bytesToSend];
          assert all[restart..restart + bytesToSend + 1] == sent + [b];
          val := PutByte(bytesToSend, val, b, sent);
          bytesToSend := bytesToSend + 1;
        }
        at := at + 1;
        remaining := remaining - 1;
        totalBytesSent := totalBytesSent + 1;
      }
      PutLast(bytesToSend, val, all[restart..restart + bytesToSend]);
      txCount := bytesToSend;
      ReadingEnds(d, descriptorIdx, at, remaining, totalBytesSent);
      if descriptorIdx == |d| && remaining == 0 {
        return -1;
      } else {
        return totalBytesSent;
      }
    }

    /** A last odd byte gets a word of its own. */
    method PutLast(at: nat, val: nat, ghost sent: seq<Byte>)
      requires Valid() && at == |sent| <= CTRL_TX_SIZE && Packed(packet[..], val, sent)
      modifies packet
      ensures PacketBytes(packet[..], at) == sent
    {
      hide Packed, PacketBytes;
      ghost var words := packet[..];
      if at % 2 == 1 {
        packet[at / 2] := val;
        LastWord(words, val, sent);
      }
      PackedBytes(packet[..], val, sent);
    }

    /** The configuration case of usb_get_device_descriptor. */
    method GetConfiguration(d: seq<seq<Byte>>, length: nat)
      requires Valid() && Descriptors(d) && !txPending
      modifies this, packet
      ensures txPending && transactionLength == length
      ensures txCount <= CTRL_TX_SIZE && OnWire() == Stretch(Flat(d), 0, Min(length, CTRL_TX_SIZE))
      ensures restartByte == Resume(Flat(d), 0, Min(length, CTRL_TX_SIZE))
    {
      var currentMax := if length > CTRL_TX_SIZE then CTRL_TX_SIZE else length;
      restartByte := SendDescriptors(d, 0, currentMax);
      transactionLength := length;
    }

    /** usb_tx_ctrl, after the packet on the wire has gone. */
    method TxCtrl(d: seq<seq<Byte>>)
      requires Valid() && Descriptors(d) && !txPending
      requires restartByte < 0 || (restartByte <= |Flat(d)| && restartByte <= transactionLength)
      modifies this, packet
      ensures transactionLength == old(transactionLength)
      ensures txPending <==> old(restartByte) >= 0 && transactionLength > old(restartByte)
      ensures txPending ==> var max := Min(transactionLength - old(restartByte), CTRL_TX_SIZE);
        && txCount <= CTRL_TX_SIZE && OnWire() == Stretch(Flat(d), old(restartByte), max)
        && restartByte == Resume(Flat(d), old(restartByte), max)
      ensures !txPending ==> restartByte < 0
    {
      if restartByte >= 0 {
        var currentMax := if transactionLength - restartByte > CTRL_TX_SIZE then CTRL_TX_SIZE
            else transactionLength - restartByte;
        if currentMax != 0 {
          restartByte := SendDescriptors(d, restartByte, currentMax);
        } else {
          restartByte := -1;
        }
      }
    }

    /** A whole exchange: the host takes each packet, and the callback sends the next until none is left. */
    method Exchange(d: seq<seq<Byte>>, length: nat) returns (ghost packets: seq<seq<nat>>)
      requires Valid() && Descriptors(d) && !txPending
      modifies this, packet
      ensures !txPending && restartByte < 0
      ensures packets == Packets(Flat(d), length)
    {
      hide Flat, PacketBytes, Packets, PacketsFrom, Stretch, Resume, Descriptors;
      ghost var all := Flat(d);
      GetConfiguration(d, length);
      packets := [OnWire()];
      txPending := false;
      FirstPacket(all, length);
      while txPending || restartByte >= 0
        modifies this, packet
        invariant Valid() && !txPending
        invariant transactionLength == length
        invariant restartByte >= 0 ==> restartByte < |all| && restartByte <= length
        invariant Packets(all, length) == packets +
            (if restartByte < 0 then [] else PacketsFrom(all, length, restartByte))
        decreases if restartByte < 0 then -1 else |all| - restartByte, if restartByte < 0 then 0 else 1
      {
        ghost var restart := restartByte;
        NextPacket(all, length, restart);
        TxCtrl(d);
        if txPending {
          ghost var rest := if restartByte < 0 then [] else PacketsFrom(all, length, restartByte);
          assert packets + ([OnWire()] + rest) == (packets + [OnWire()]) + rest;
          packets := packets + [OnWire()];
          txPending := false;
        }
      }
    }
  }

  lemma NothingPacked(words: seq<nat>)
    ensures Packed(words, 0, [])
  {
  }

  lemma LastWord(words: seq<nat>, val: nat, s: seq<Byte>)
    requires Packed(words, val, s) && |s| % 2 == 1
    ensures Packed(words[|s| / 2 := val], val, s)
  {
  }

  lemma FirstPacket(all: seq<Byte>, wLength: nat)
    ensures var max := Min(wLength, CTRL_TX_SIZE);
      var next := Resume(all, 0, max);
      Packets(all, wLength) == [Stretch(all, 0, max)] + (if next < 0 then [] else PacketsFrom(all, wLength, next))
    ensures var next := Resume(all, 0, Min(wLength, CTRL_TX_SIZE));
      next >= 0 ==> next < |all| && next <= wLength
  {
  }

  lemma NextPacket(all: seq<Byte>, wLength: nat, restart: int)
    requires 0 <= restart < |all| && restart <= wLength
    ensures var max := Min(wLength - restart, CTRL_TX_SIZE);
      var next := Resume(all, restart, max);
      && (max == 0 ==> PacketsFrom(all, wLength, restart) == [])
      && (max > 0 ==>
           PacketsFrom(all, wLength, restart) == [Stretch(all, restart, max)] +
               (if next < 0 then [] else PacketsFrom(all, wLength, next)))
      && (next >= 0 ==> restart <= next < |all| && next <= wLength && (max > 0 ==> restart < next))
  {
  }
}
