/** The session object: the machine of SessionMachine, carried out in place. */
module FtdSessions {
  import opened Bytes
  import opened Ftd
  import opened FtdcBuffers
  import M = SessionMachine

  class FtdSession {
    const wiring: M.Wiring
    const handler: M.Handler

    var header: M.FtdHeader
    const extend: array<byte>
    const buffer: FtdcBuffer
    var replies: seq<Image>
    var index: nat

    // The socket: what is still to be read, what has been written, and the operation under way.
    var pending: M.Pending
    var open: bool
    var inbox: bytes
    var outbox: bytes

    predicate Parts() {
      extend.Length == FTD_EXTEND_HEADER_SIZE && buffer.Valid() && buffer.buff != extend
    }

    function View(): M.State
      requires Parts()
      reads this, extend, buffer.buff
    {
      M.State(header, extend[..], buffer.Bytes(), replies, index, pending, open, inbox, outbox)
    }

    predicate Valid()
      reads this, extend, buffer.buff
    {
      Parts() && M.Inv(View())
    }

    // No operation is under way before `Start`, and the header and tags hold anything.
    constructor (wiring: M.Wiring, handler: M.Handler, inbox: bytes)
      ensures Valid() && fresh(extend) && fresh(buffer.buff)
      ensures pending.Idle? && open && replies == [] && buffer.Bytes() == Blank()
      ensures this.inbox == inbox && outbox == []
      ensures this.wiring == wiring && this.handler == handler
    {
      this.wiring, this.handler := wiring, handler;
      extend := new byte[FTD_EXTEND_HEADER_SIZE];
      buffer := new FtdcBuffer();
      replies := [];
      pending, open, this.inbox, outbox := M.Idle, true, inbox, [];
    }

    // Everything is cleared, whatever it held, and a header read begins.
    method Start()
      requires Parts()
      modifies this, extend, buffer.buff
      ensures View() == M.Reading(old(open), old(inbox), old(outbox)) && (open ==> Valid())
    {
      header := M.NO_HEADER;
      forall i | 0 <= i < extend.Length {
        extend[i] := 0 as char;
      }
      buffer.Clear();
      replies := [];
      index := 0;
      pending := M.ReadHeader;
      assert extend[..] == Zeros(FTD_EXTEND_HEADER_SIZE);
    }

    method Response()
      requires Parts() && M.CanRespond(View())
      modifies this, buffer.buff
      ensures View() == M.Response(wiring, old(View()))
    {
      if |replies| == 1 {
        buffer.Assign(replies[0]);
        buffer.SetChain(FTDC_CHAIN_SINGLE);
        SendBuffer();
        if !wiring.sendsSingle {
          pending := M.Idle;
        }
      } else if |replies| > 1 {
        buffer.Assign(replies[index]);
        if index == 0 {
          buffer.SetChain(FTDC_CHAIN_FIRST);
        } else if index == |replies| - 1 {
          buffer.SetChain(FTDC_CHAIN_LAST);
        } else {
          buffer.SetChain(FTDC_CHAIN_MIDDLE);
        }
        index := index + 1;
        SendBuffer();
      } else {
        pending := M.Idle;
      }
    }

    // Starts writing the buffer, header first; a refreshing session announces its length.
    method SendBuffer()
      requires Parts()
      modifies this`header, this`pending
      ensures pending == M.WriteHeader
      ensures header == if wiring.refreshes then old(header).(ftdcLength := Size(buffer.Bytes())) else old(header)
    {
      if wiring.refreshes {
        header := header.(ftdcLength := Size(buffer.Bytes()));
      }
      pending := M.WriteHeader;
    }

    // The handlers that only start the next operation.
    method HandleReadFtdHeader()
      modifies this`pending
      ensures pending == M.ReadExtend
    {
      pending := M.ReadExtend;
    }

    method HandleReadFtdExtendheader()
      modifies this`pending
      ensures pending == M.ReadFtdc
    {
      pending := M.ReadFtdc;
    }

    method HandleWriteFtdHeader()
      modifies this`pending
      ensures pending == M.WriteExtend
    {
      pending := M.WriteExtend;
    }

    method HandleWriteFtdExtendheader()
      modifies this`pending
      ensures pending == M.WriteFtdc
    {
      pending := M.WriteFtdc;
    }

    method HandleReadFtdc()
      requires Parts() && index == 0
      modifies this, buffer.buff
      ensures View() == M.HandleReadFtdc(wiring, handler, old(View()))
    {
      if header.ftdcLength != Size(buffer.Bytes()) {
        open := false;
        pending := M.Idle;
      } else {
        replies := handler(buffer.Bytes());
        if wiring.responds {
          Response();
        } else {
          pending := M.Idle;
        }
      }
    }

    method HandleWriteFtdc()
      requires Valid() && pending.WriteFtdc?
      modifies this, extend, buffer.buff
      ensures View() == M.HandleWriteFtdc(wiring, old(View()))
    {
      if Chain(buffer.Bytes()) == FTDC_CHAIN_SINGLE || Chain(buffer.Bytes()) == FTDC_CHAIN_LAST {
        Start();
      } else {
        Response();
      }
    }

    /** Completes the operation under way, if it can complete, and runs its handler. */
    method Poll()
      requires Valid()
      modifies this, extend, buffer.buff
      ensures Valid() && View() == M.Poll(wiring, handler, old(View()))
    {
      M.PollInv(wiring, handler, View());
      if M.Enabled(View()) {
        var n := M.Wanted(View());
        var got := inbox[..n];
        match pending
        case ReadHeader =>
          inbox := inbox[n..];
          header := M.DecodeHeader(got);
          HandleReadFtdHeader();
        case ReadExtend =>
          inbox := inbox[n..];
          Memcpy(extend, 0, got);
          HandleReadFtdExtendheader();
        case ReadFtdc =>
          inbox := inbox[n..];
          Memcpy(buffer.buff, 0, got);
          HandleReadFtdc();
        case WriteHeader =>
          outbox := outbox + header.Encode();
          HandleWriteFtdHeader();
        case WriteExtend =>
          outbox := outbox + extend[..header.extendLength as int];
          HandleWriteFtdExtendheader();
        case WriteFtdc =>
          outbox := outbox + buffer.buff[..header.ftdcLength];
          if wiring.finishes {
            HandleWriteFtdc();
          } else {
            HandleWriteFtdExtendheader();
          }
        case Idle =>
      }
    }

    /** What the event loop makes of the session: one completion after another. */
    method Run(n: nat)
      requires Valid()
      modifies this, extend, buffer.buff
      ensures Valid() && View() == M.Run(wiring, handler, old(View()), n)
    {
      for i := 0 to n
        invariant Valid()
        invariant M.Run(wiring, handler, View(), n - i) == M.Run(wiring, handler, old(View()), n)
      {
        Poll();
      }
    }
  }
}
