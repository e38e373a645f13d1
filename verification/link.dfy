/**
 * The device's end of the serial link, as the device sees it: the requests
 * it has sent so far, and the host's reply words, which it reads one at a
 * time in order. The replies are fixed in advance as a function of their
 * position, so a run of the device is determined by its inputs and by what
 * the host answers.
 */
module DeviceLink {
  import opened Protocol

  /** `req_send` and `req_receive` over the UART. */
  class Link {
    var sent: seq<Request>
    var received: nat
    /** The host's `n`-th reply word. */
    const replies: nat -> Word

    /** Nothing sent and nothing read yet. */
    constructor (replies: nat -> Word)
      ensures sent == [] && received == 0 && this.replies == replies
    {
      sent := [];
      received := 0;
      this.replies := replies;
    }

    /** `req_send`: the request goes out after everything sent before it. */
    method Send(r: Request)
      modifies this
      ensures sent == old(sent) + [r] && received == old(received)
    {
      sent := sent + [r];
    }

    /** `req_receive`: the next reply word the host sent, which is then consumed. */
    method Receive() returns (w: Word)
      modifies this
      ensures w == replies(old(received)) && received == old(received) + 1 && sent == old(sent)
    {
      w := replies(received);
      received := received + 1;
    }
  }
}
