/** The messages the TCP sender and receiver exchange (tcp_sender_message.hh and
    tcp_receiver_message.hh are not part of this model; their fields are the ones the
    sender and receiver read and write). */
module TcpMessages {
  import opened Common
  import opened Wrap32

  /** A uint16_t value. */
  type u16 = x: int | 0 <= x < 0x1_0000

  const U16_MAX: u16 := 0xFFFF

  /** TCPSenderMessage: a sequence number, the SYN flag, the payload, the FIN flag and the
      RST flag. */
  datatype SenderMessage = SenderMessage(seqno: u32, syn: bool, payload: seq<byte>, fin: bool, rst: bool)
  {
    /** sequence_length: SYN and FIN each take one sequence number. */
    function SequenceLength(): (n: nat)
      ensures |payload| <= n <= |payload| + 2
      ensures n == 0 <==> !syn && !fin && payload == []
    {
      (if syn then 1 else 0) + |payload| + (if fin then 1 else 0)
    }
  }

  /** TCPReceiverMessage: the acknowledgement number once known, the window and RST. */
  datatype ReceiverMessage = ReceiverMessage(ackno: Option<u32>, windowSize: u16, rst: bool)
}
