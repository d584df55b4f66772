/**
 * The network connection under a transport. `inbox` is every byte that will still arrive, so a
 * statement about all values of `inbox` is a statement about every peer and every network;
 * `outbox` is every byte written so far.
 */
module Wire {
  import opened Bytes

  class Conn {
    var inbox: bytes
    var outbox: bytes
    var open: bool

    constructor (inbox: bytes)
      ensures this.inbox == inbox && outbox == [] && open && Valid()
    {
      this.inbox, outbox, open := inbox, [], true;
    }

    /** Nothing arrives any more after a local close. */
    ghost predicate Valid()
      reads this
    {
      open || inbox == []
    }

    /** Fails only once the connection was closed locally. */
    method Write(b: bytes) returns (ok: bool)
      modifies this`outbox
      ensures ok == open
      ensures outbox == if ok then old(outbox) + b else old(outbox)
    {
      ok := open;
      if ok {
        outbox := outbox + b;
      }
    }

    /** One read of at most `n` bytes; the network decides how many arrive together. */
    method Read(n: nat) returns (data: bytes, ok: bool)
      modifies this`inbox
      ensures data + inbox == old(inbox) && |data| <= n
      ensures ok <==> n == 0 || old(inbox) != []
      ensures ok && n > 0 ==> |data| > 0
    {
      if n == 0 {
        data, ok := [], true;
      } else if inbox == [] {
        data, ok := [], false;
      } else {
        var m: nat :| 1 <= m <= n && m <= |inbox|;
        data, ok := inbox[..m], true;
        inbox := inbox[m..];
      }
    }

    /** `io.ReadFull`: exactly `n` bytes however the reads are split, or an error that ate the rest. */
    method ReadFull(n: nat) returns (data: bytes, ok: bool)
      modifies this`inbox
      ensures ok <==> n <= |old(inbox)|
      ensures ok ==> data == old(inbox)[..n] && inbox == old(inbox)[n..]
      ensures !ok ==> inbox == []
    {
      data := [];
      while |data| < n
        invariant |data| <= n && data + inbox == old(inbox)
        decreases n - |data|
      {
        var chunk, got := Read(n - |data|);
        if !got {
          return data, false;
        }
        data := data + chunk;
      }
      ok := true;
    }

    /** After a close nothing more can be read or written. */
    method Close()
      modifies this
      ensures !open && inbox == [] && outbox == old(outbox)
    {
      open, inbox := false, [];
    }
  }
}
